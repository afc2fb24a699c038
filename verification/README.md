# A verified model of the VirusTotal v3 client

The client library talks to the VirusTotal v3 API. Four parts of it compute something whose
correctness is not visible from one line: the codecs between byte strings and URL text, the token
bucket that paces requests and the client operations that run behind it, the query-string builder,
and the one-pass checks of ids and of the command line. This project models those parts in the form
the code has them (loops over strings, a limiter object with fields it updates, a client object with
a log) and proves them against definitions that do not mention the loops.

## How the model reads

* `Strings`, `Bits`, `Numbers`: bytes as characters below 256, fields between separators, the
  unsigned 32-bit operators `<<`, `>>`, `|`, `&` on natural numbers (with the wrap-around of
  `std::uint32_t` written out), and positional numbers in any base.
* `Base64`, `Base64Laws`: a byte string and its Base64 text are one integer written in base 256 and in
  base 64 (RFC 4648, section 4). The block encoder and the streaming decoder are loops proved equal to
  that definition; the decoder's 32-bit buffer drops the high bits of the integer and is shown never
  to miss them.
* `Url`, `Query`: percent-encoding, base64url, URL ids, and `append_query` with a parser that reads the
  parameters back.
* `Hosts`, `IPv6`, `Hashing`, `Cli`: the scanners against grammars over the fields of a split, the hex digest
  printer, and the option parser against a decomposition into option groups. `IPv6` holds the literal grammar
  of RFC 4291 and where the address scan agrees with it.
* `RateLimit`, `Interleaving`: the bucket as the class runs it for one caller, and the same bucket
  behind a mutex that any number of callers contend for and that is held across the sleep. The
  scheduler picks every next step and every amount of time that passes.
* `Client`, `VirusTotal`: the client operations over arbitrary replies and latencies, with a ghost log of
  grants and requests.

The clock is monotone and real-valued; a sleep lasts at least as long as requested. The clock keeps a ghost
count of the sleep requested of it, so that a contract can say how long a call asks to sleep and not only
how long it takes. `double` is `real`.
Random, network and operating-system input is arbitrary: replies and latencies are havocked, digests are
any byte string, `std::stoi` and `std::stod` are any partial functions. A wait on a disabled limiter
(rate 0) is logged as a grant at the time it was passed, so that the order of waits and requests can be
stated for it too; the bounds are stated for enabled limiters. `VirusTotal.VirusTotal.RunProgram` stands for
any program over the modelled client operations: it takes an arbitrary list of calls, of single requests as
well as of batches, uploads and polling. Proof bodies use `hide` where a
definition would only cost the solver time. What the code decides by comparing characters (hex digits,
letters, unreserved characters, the symbols of Base64) is also stated against the characters written out.

## What the code does not promise

* The comment at `src/client.cpp:339-341` promises IPv6 literals; the scan does not decide them. With the
  grammar of RFC 4291, section 2.2 as `IPv6.IsIPv6Literal` (eight groups, the `::` form, and either with a
  dotted tail in the place of two groups):
  * the literals it refuses are `::` and every one with a dotted tail, and no others
    (`IPv6.RefusedLiterals`, `IPv6.AcceptedAmongLiterals`; `::ffff:` before any printed address is one,
    `IPv6.MappedAddressRefused`);
  * of the strings with a colon that it accepts, the literals are exactly those with fields of at most four
    characters whose empty fields stand where a single `::` puts them (`IPv6.LiteralsAmongAccepted`);
    `12345:`, `1::2::3` and `:::1` are accepted and are not literals (`IPv6.AcceptedNonLiterals`);
  * scan and grammar agree on a string with a colon exactly under the condition of `IPv6.AgreesExactly`, which
    reads only the characters and the fields between colons: a string of hex digits and colons must be other
    than `::` if it has no digit, have more than eight fields that are not empty, or have its fields well
    placed; any other must not be a literal with a dotted tail.
* The comment at `include/vtapi/detail/base64.hpp:64-67` promises false for characters outside the alphabet.
  `QQ==!` is accepted (`Base64Laws.ForeignExample`): nothing behind the first `=` is looked at. A text is
  rejected for a foreign character exactly if one stands before the first `=`
  (`Base64Laws.ForeignCharacters`).

## Model

| member | source | states |
|---|---|---|
| Base64.Base64Encode | include/vtapi/detail/base64.hpp:12-48 | the text is the integer of the bytes written in base 64 after the slack of the last group, padded to a multiple of four |
| Base64Laws.EncodedLength | include/vtapi/detail/base64.hpp:15-46 | four characters for each three bytes begun; `==` behind a last single byte, `=` behind a last pair, nothing behind a triple |
| Base64Laws.TestVectors | include/vtapi/detail/base64.hpp:9-48 | the one-group test vectors of RFC 4648, section 10 |
| Base64Laws.LastSymbols | include/vtapi/detail/base64.hpp:13-14 | symbols 62 and 63 are `+` and `/` |
| Base64.SextetsOfWord | include/vtapi/detail/base64.hpp:21-44 | the shifts and masks of a three-byte word are its four sextets, also when one or two bytes are missing |
| Base64.StandardTable | include/vtapi/detail/base64.hpp:13-14 | the value of every symbol of the alphabet is its index |
| Base64.SymbolOfValue | include/vtapi/detail/base64.hpp:50-62 | the branch table is the inverse of the alphabet, so no other character has a value |
| Base64.Base64Decode | include/vtapi/detail/base64.hpp:68-99 | succeeds exactly if the whitespace-free text before the first `=` is in the alphabet, its length is not 1 modulo 4 and its unused bits are zero; yields the bytes of the unbounded integer, floor(6n/8) for n symbols, and nothing on failure |
| Base64.PushSextet | include/vtapi/detail/base64.hpp:84-89 | one round on the wrapping 32-bit buffer emits the byte the unbounded integer would, and keeps the pending bits in the cycle 0, 6, 4, 2 |
| Base64.PendingCycle | include/vtapi/detail/base64.hpp:85-87 | between symbols the number of pending bits is 0, 6, 4 or 2 according to the count modulo 4 |
| Base64.Residue | include/vtapi/detail/base64.hpp:94-97 | the final test on the wrapped buffer decides what it would on the unbounded integer |
| Base64.SextetsExact | include/vtapi/detail/base64.hpp:17-46 | the sextets denote exactly the shifted integer of the bytes: none is lost at the front |
| Base64.BytesExact | include/vtapi/detail/base64.hpp:72-91 | the emitted bytes denote exactly the integer of the payload without its pending bits |
| Base64Laws.DecodesTo | include/vtapi/detail/base64.hpp:68-99 | canonicity and round trip in one: a text decodes to x if and only if its payload is the encoding of x without padding (RFC 4648, section 3.5) |
| Base64Laws.AcceptsOnlyEncodings | include/vtapi/detail/base64.hpp:92-98 | a text is accepted if and only if its payload is the encoding of some byte string |
| Base64Laws.DecodeInjective | include/vtapi/detail/base64.hpp:68-99 | texts with the same decoding differ at most in whitespace and behind the first `=` |
| Base64Laws.WhitespaceIgnored | include/vtapi/detail/base64.hpp:77-78 | texts that differ only in whitespace, in any number of places, decode alike |
| Base64Laws.PaddingEndsText | include/vtapi/detail/base64.hpp:75-76 | nothing behind the first `=` is looked at |
| Base64Laws.ForeignCharacters | include/vtapi/detail/base64.hpp:75-83 | a foreign character spoils a text if and only if it stands before the first `=` |
| Base64Laws.ForeignMeaning | include/vtapi/detail/base64.hpp:50-62 | foreign is every character but the 64 symbols, `=` and four spaces, written out |
| Base64Laws.PayloadOfCharacter | include/vtapi/detail/base64.hpp:74-79 | a character in front of a text ends its payload, is skipped or belongs to it, for each character |
| Base64Laws.ForeignAccepted | include/vtapi/detail/base64.hpp:64-76 | behind an accepted text and a `=` anything may follow, foreign characters included |
| Base64Laws.RoundTrip | include/vtapi/detail/base64.hpp:12-99 | for every byte string, its encoding with or without padding decodes to it, however it is broken up by whitespace |
| Url.PercentEncoder | include/vtapi/detail/url.hpp:12-27 | the loop computes the escape of every byte in order, which `Url.PercentOfByte` and `Url.PercentAppend` determine |
| Url.PercentOfByte | include/vtapi/detail/url.hpp:8-24 | exactly the 66 characters of RFC 3986, section 2.3, written out, stay; any other byte becomes `%` and its two upper-case hex digits |
| Url.PercentAppend | include/vtapi/detail/url.hpp:15-25 | the encoding of a concatenation is the concatenation of the encodings |
| Url.PercentRoundTrip | include/vtapi/detail/url.hpp:12-27 | a reader of escapes and unreserved characters (RFC 3986, sections 2.1 and 2.3) recovers every byte string |
| Url.PercentAlphabet | include/vtapi/detail/url.hpp:8-11 | only unreserved characters and `%` come out |
| Url.PercentFixes | include/vtapi/detail/url.hpp:16-24 | a string is left alone if and only if it is all unreserved |
| Url.Base64UrlEncode | include/vtapi/detail/url.hpp:35-70 | same integer, same base, URL-safe alphabet, no padding, although the one-byte tail is shifted differently |
| Url.SextetsOfByte | include/vtapi/detail/url.hpp:57-60 | the tail arithmetic on the bare byte gives the sextets the word arithmetic gives |
| Url.EncodersAgree | include/vtapi/detail/url.hpp:29-34 | base64url is Base64 with the padding dropped and `+`, `/` replaced |
| Url.UrlSafeVector | include/vtapi/detail/url.hpp:29-37 | the two symbols that differ from Base64 are `-` and `_`, in this order |
| Url.EncodeUrlLength | include/vtapi/detail/url.hpp:40 | ceil(4n/3) characters for n bytes |
| Url.EncodeUrlInjective | include/vtapi/detail/url.hpp:35-70 | distinct byte strings have distinct base64url texts |
| Url.EncodeUrlUnreserved | include/vtapi/detail/url.hpp:36-37 | every character is unreserved (RFC 3986, section 2.3) |
| Url.UrlIdNormalises | src/client.cpp:464-467 | taking the id of a URL is idempotent, gives a segment percent-encoding leaves alone, and separates raw URLs |
| Query.AppendQuery | src/client.cpp:1025-1039 | the URL, then `?` or `&` depending on whether it has a `?`, then the parameters with a value joined by `&`, names and values escaped as `Url.PercentOfByte` says |
| Query.NonEmptyAppend | src/client.cpp:1029-1031 | the filter keeps what it keeps of each part, in order |
| Query.OneParameter | src/client.cpp:1030-1031 | a parameter is left out if and only if its value is empty |
| Query.FieldsAppended | src/client.cpp:1028-1037 | the fields the URL has already stay, one field per parameter with a value follows, the part before the `?` is unchanged |
| Query.QueryRoundTrip | src/client.cpp:1025-1039 | splitting on `?`, `&`, `=` and percent-decoding gives back the parameters with a value, in order; without any, the URL is unchanged |
| Query.Composition | src/client.cpp:1025-1039 | appending two lists in turn is appending their concatenation, for every URL |
| Hosts.IsValidIp | src/client.cpp:342-388 | accepts exactly the grammar chosen by the presence of a colon |
| Hosts.ScanIPv4 | src/client.cpp:367-387 | true exactly if splitting on `.` gives four fields of one to three digits and value at most 255 |
| Hosts.OctetIff | src/client.cpp:368-377 | the fields accepted are exactly the decimal numerals of 0 to 255, with leading zeros up to three digits |
| Hosts.ScanIPv6 | src/client.cpp:345-366 | true exactly if there are only hex digits and colons, and one to eight maximal runs of hex digits |
| IPv6.LiteralIff | src/client.cpp:339-341 | being an IPv6 literal (RFC 4291, section 2.2) is a property of the fields between colons, for every string |
| IPv6.AcceptedAmongLiterals | src/client.cpp:345-366 | a literal is accepted if and only if it has a hex digit and no dotted tail |
| IPv6.LiteralsAmongAccepted | src/client.cpp:345-366 | an accepted string with a colon is a literal if and only if no field is longer than four and there are eight fields, or at most seven that are not empty around a single `::` |
| IPv6.RefusedLiterals | src/client.cpp:339-366 | the refused literals are `::` and those with a dotted tail, and nothing else |
| IPv6.AgreesExactly | src/client.cpp:339-366 | for every string with a colon, the exact condition, on its characters and the fields between colons, under which the scan meets the documented grammar |
| IPv6.MappedAddressRefused | src/client.cpp:350-361 | `::ffff:` before any printed address is a literal and is refused |
| IPv6.AcceptedNonLiterals | src/client.cpp:350-365 | `12345:`, `1::2::3` and `:::1` are accepted and are not literals |
| Hosts.PrintedAddress | src/client.cpp:367-387 | every address printed from four octets is accepted and splits into the octets printed |
| Hosts.IsValidDomain | src/client.cpp:394-430 | true exactly if at most 253 characters split on `.` into at least two labels of 1 to 63 letters, digits and inner hyphens, the last with a letter (RFC 1035, section 2.3.4; RFC 1123, section 2.1); no character is read out of bounds |
| Hosts.DomainGrammar | src/client.cpp:394-430 | the grammar with its characters written out: letters, digits, inner hyphens, 63 in a label, 253 in all |
| Hosts.Disjoint | src/client.cpp:397-400 | no string is both an address and a domain, so the address check inside the domain check never changes its answer |
| Strings.CharacterClasses | include/vtapi/detail/hashing.hpp:27-29 | the comparisons with range ends decide the letters, digits and hex digits, written out |
| Strings.ContainsIff | src/client.cpp:313 | a string contains another if and only if it is that string with something before and behind it |
| Hashing.CheckHexHash | include/vtapi/detail/hashing.hpp:23-34 | true exactly for 32, 40 or 64 of the 22 hex digits of either case, written out |
| Hashing.PrintHex | src/hashing.cpp:27-34 | the loop prints two lower-case hex digits for each byte, high half first |
| Hashing.DigestAccepted | src/hashing.cpp:27-34 | a printed digest passes the id check if and only if it has 16, 20 or 32 bytes |
| Hashing.DigestInjective | src/hashing.cpp:27-34 | distinct digests are printed differently |
| Cli.ParseOptions | examples/eicar_cli/main.cpp:47-84 | the in-place parser leaves exactly the options the reading from the front gives, also where it stops midway |
| Cli.OptionMeanings | examples/eicar_cli/main.cpp:51-76 | each of the five options by name sets its own field and nothing else; a value that is no number fails |
| Cli.OtherWords | examples/eicar_cli/main.cpp:53-84 | any other word is the command, or fails if it is empty or starts with `-`; an option without a value fails, and so do no arguments |
| Cli.Defaults | examples/eicar_cli/main.cpp:19-27 | without options: the public base URL, 30 seconds, verification on, 4 requests a minute |
| Cli.ParsesExactly | examples/eicar_cli/main.cpp:47-84 | succeeds if and only if the arguments are option groups, a command that is neither empty nor starts with `-`, and a tail |
| Cli.ScanComplete | examples/eicar_cli/main.cpp:78-80 | a decomposition yields the groups applied in order, its command and its untouched tail |
| Cli.DecompositionUnique | examples/eicar_cli/main.cpp:51-81 | there is only one decomposition |
| Cli.LastWins | examples/eicar_cli/main.cpp:55-74 | an option decides its field unless another of its kind follows |
| Cli.PrintRoundTrip | examples/eicar_cli/main.cpp:47-84 | printing any options and parsing them over the defaults gives them back, for numerals that convert back |
| RateLimit.RateLimiter.constructor | include/vtapi/detail/ratelimit.hpp:16-24 | a non-positive rate disables the limiter, any other starts it with one token |
| RateLimit.RateLimiter.Wait | include/vtapi/detail/ratelimit.hpp:31-47 | a disabled limiter changes nothing; an enabled one adds one grant to a log that stays on schedule, never before the due time, and asks for exactly the sleep that ends at the due time, so that it grants at the due time if nothing else takes time |
| RateLimit.WaitKeepsSchedule | include/vtapi/detail/ratelimit.hpp:31-47 | grants are a period apart, a caller that comes later than that is not delayed, and the bucket is exactly empty after each |
| RateLimit.WaitIsDue | include/vtapi/detail/ratelimit.hpp:36-40 | the requested sleep ends at the later of the caller's time and one period after the last grant, and only callers before that time sleep |
| RateLimit.AskedBounds | include/vtapi/detail/ratelimit.hpp:39-41 | the sleep a schedule asks for is at most one period for each grant |
| RateLimit.GrantsApart | include/vtapi/detail/ratelimit.hpp:11-13 | grants i and j are at least j - i periods apart |
| RateLimit.WindowBound | include/vtapi/detail/ratelimit.hpp:11-13 | a closed window of length w holds at most floor(w * rate) + 1 grants |
| Interleaving.StepKeepsInv | include/vtapi/detail/ratelimit.hpp:34-46 | every step of any caller keeps the invariant of bucket, mutex and log |
| Interleaving.Safety | include/vtapi/detail/ratelimit.hpp:31-47 | on every run of any callers with sleeps that may overshoot: spacing, window bound, tokens between 0 and 1, tokens 0 when nobody sleeps after a grant |
| Interleaving.ExactSchedule | include/vtapi/detail/ratelimit.hpp:35-43 | with exact sleeps the first grant is at its lock time and each later one at the later of its lock time and one period after the grant before |
| Interleaving.SleepIsBounded | include/vtapi/detail/ratelimit.hpp:40-41 | a sleeper wakes one period after the last grant, so it never sleeps longer than a period |
| Interleaving.NoDeadlock | include/vtapi/detail/ratelimit.hpp:34-41 | from every state any blocked caller can hold the lock within one period |
| Interleaving.WaitIsARun | include/vtapi/detail/ratelimit.hpp:31-47 | what the class does for one caller is a run of the machine |
| Client.RequestsAreGrants | src/client.cpp:134-151 | in a log where every request directly follows its own grant, requests and grants are equal in number in every window |
| Client.RequestWindowBound | src/client.cpp:134-151 | the window bound of the limiter holds of requests stamped at their grants |
| Client.BatchDetermined | src/client.cpp:211-227 | the replies decide a batch: it stops right after the first failing request and returns that failure |
| Client.RequestShapes | src/client.cpp:40-684 | verb, address and payload of each request; a rescan posts below the address of the report, a URL report reads below the address a scan posts the URL to |
| Client.RequestsApart | src/client.cpp:40-684 | distinct ids have distinct addresses, and file, URL and analysis addresses never coincide |
| Client.UrlReportDetermined | src/client.cpp:462-484 | the replies decide what a URL report sends and returns; what it sends is a prefix of GET, POST, GET, with the POST if and only if there was a 404, the flag and a raw URL |
| Client.UploadUrlResolves | src/client.cpp:139-143 | an absolute address is kept, any other stands whole behind the base and a slash whether or not it starts with one, and the result names a scheme if the base does |
| Client.PollCount | src/client.cpp:700-708 | polls at least max(interval, 1/rate) apart fit at most ceil(timeout / that) + 1 times |
| Client.PollsApart | src/client.cpp:700-708 | two polls are at least the interval and at least a limiter period apart |
| VirusTotal.VirusTotal.Perform | src/response.cpp:37-75 | one request costs one fresh grant and no other sleep; it succeeds exactly on 200, 201 or 204 with a well-formed body, with the text of the reply, and 403, 404, 429, 0, any other status and a bad body give each its own error |
| VirusTotal.VirusTotal.GetFileReport | src/client.cpp:35-42 | an invalid hash changes nothing; a valid one sends one GET of `/files/` and the hash |
| VirusTotal.VirusTotal.RescanFile | src/client.cpp:191-199 | an invalid hash changes nothing; a valid one sends one POST to its `/analyse` |
| VirusTotal.VirusTotal.ScanUrl | src/client.cpp:312-322 | a URL without `://` changes nothing; any other sends one POST to `/urls` with the URL itself |
| VirusTotal.VirusTotal.GetUrlReport | src/client.cpp:462-484 | exactly the traces GET and GET, POST, GET cut short by an error, and which result each gives |
| VirusTotal.VirusTotal.ScanLargeFile | src/client.cpp:128-153 | more than 650 MiB sends nothing; otherwise GET of the upload address, then POST of the file to the resolved address if there is one |
| VirusTotal.VirusTotal.RequireValidHashes | src/client.cpp:203-207 | true exactly if every element is a valid hash |
| VirusTotal.VirusTotal.RequireValidUrls | src/client.cpp:333-337 | true exactly if every element is a valid URL |
| VirusTotal.VirusTotal.RescanFiles | src/client.cpp:211-218 | an invalid element anywhere means no grant and no request; otherwise one request per element in order up to the first failure |
| VirusTotal.VirusTotal.GetFileReports | src/client.cpp:220-227 | the same for file reports |
| VirusTotal.VirusTotal.ScanUrls | src/client.cpp:453-460 | the same for URL scans |
| VirusTotal.VirusTotal.GetUrlReports | src/client.cpp:486-493 | the same for URL reports, never posting |
| VirusTotal.VirusTotal.GetAnalysis | src/client.cpp:680-686 | an empty id changes nothing; any other polls once, at `/analyses/` and the id |
| VirusTotal.VirusTotal.AwaitAnalysis | src/client.cpp:688-709 | terminates for every server; at most ceil(timeout / max(interval, 1/rate)) + 1 polls after clamping; polls are that far apart, and the sleep it asks for beyond the limiter is exactly one interval between each two; returns only a report last seen completed; times out only once the timeout has passed |
| VirusTotal.VirusTotal.RunProgram | src/client.cpp:134-151 | over any sequence of calls, single requests and longer operations, the log grows by exactly the exchanges the calls allow, in order, stays paced, and requests keep to the rate in every window |

## Left out

- libcurl, sockets, TLS and proxies: a request is a log entry with an arbitrary reply and latency.
- The JSON model parsers: a reply says whether its parser accepts the body and which text it yields.
- OpenSSL: a digest is any byte string.
- File reading and `write_file_atomic`: they depend on stream buffering and rename semantics outside the code.
- Most endpoint wrappers of the client: a check, a wait and a call like the ones modelled.
- The API key check of the client constructor, and request headers and bodies other than the URL to scan and the file name.
- The path overloads and the size limit of `scan_file`, and the password field of uploads.
- IEEE rounding of `double`, and the values `nan` and `inf` that `std::stod` accepts.
- Growing a `std::string&` parameter in place: the encoders and the decoder return their text as a value; `parse_options` does update its object.
- Several threads inside one client: its documentation forbids them; only the limiter is modelled under contention.
- VirusTotal.VirusTotal.Send: any reply after any time; nothing is assumed of the server.
- RateLimit.RateLimiter.RequestsPerMinute: modelled without its lock, which a single caller cannot observe.

