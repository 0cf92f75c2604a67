# Gmail assistant backend: message decoding core

This project models the part of the Flask backend in `app.py` that turns a
Gmail API message into the text shown to the user:

- **`base64_decode_safe`**: restore the `=` padding that Gmail strips, decode
  with the URL-safe alphabet of section 5 of RFC 4648, and read the bytes as
  UTF-8 with replacement. Any failure gives the empty string. The encoder
  `base64.urlsafe_b64encode`, which `create_message` uses, is modelled too. It
  is the partner in the round-trip lemmas.
- **`get_email_body`**: the depth-first walk over the payload tree of MIME
  parts (section 5.1 of RFC 2046). It returns inline plain text, or a
  prefixed 500-character preview of inline HTML, or the first usable child
  text, or else the HTML the loop kept aside.
- **`extract_sender_name`**: the display name of a `From` value, found by the
  regular expression `^(.*?)\s*<([^>]+)>$`, then trimmed and unquoted. The
  address, or the whole input, is the fallback.
- **The header lookups**: the first `From` and `Subject` header, with
  `"Unknown Sender"` and `"No Subject"` when missing. These are used by the
  unread list and by the content endpoint.

Modules:

- `Wrappers` (`wrappers.dfy`) holds `Option`.
- `Base64Url` (`base64url.dfy`) holds Python's non-strict decoder, the encoder
  and the round trips.
- `MimeBody` (`mime_body.dfy`) holds the walk as functions (`EmailBody`,
  `Scan`, `StepPart`) and the recursive method `GetEmailBody`. The method
  keeps the source's loop and early returns, and is proved equal to
  `EmailBody`.
- `SenderName` (`sender_name.dfy`) holds `str.strip()`, the regular
  expression as an explicit search, and the extraction.
- `Headers` (`headers.dfy`) holds the lookups and the records built from
  them.

The UTF-8 decoding with replacement is library behaviour. It is a parameter
`utf8: seq<Byte> -> string` of every function that decodes.

### Behaviour worth noting

- **HTML fallback in a container.** A later HTML child overwrites the kept
  value (`app.py:103-106`), so the last HTML child counts, not the first:
  `MimeBody.LastHtmlFallback`.
- **Container whose only child is HTML.** The result is the raw decoded HTML,
  with no prefix and no truncation: `MimeBody.HtmlOnlyChildIsRaw`. Only an
  HTML payload with inline data gets the prefixed preview.
- **Name that is a single `"`.** The quote test is `startswith`/`endswith`
  followed by the slice `[1:-1]`, with no length check. A lone `"` therefore
  becomes the empty string, and the address is returned:
  `SenderName.BareQuotesGiveAddress`.
- **Lenient decoding.** `urlsafe_b64decode` does not validate. It skips ASCII
  characters outside the alphabet, accepts `+` and `/`, ignores surplus `=`, and
  stops at the `=` that completes a quantum. So `QUJD.` and `QUJD=` both give
  `ABC`, and `QQ==QUJD` gives `A`: `Base64Url.DecodeSafeSkipsForeign`,
  `Base64Url.DecodeSafeExcessPadding`, `Base64Url.DecodeSafeStopsAtPadding`.

## Model

| member | source | states |
|---|---|---|
| Base64Url.SextetOfCharOf | app.py:80 | every 6-bit value maps to a URL-safe alphabet character that maps back to it |
| Base64Url.CharOfSextetOf | app.py:80 | every alphabet character maps to a value that maps back to it, so the alphabet is a bijection |
| Base64Url.Pads | app.py:79 | `'=' * n`: exactly n padding characters |
| Base64Url.Padded | app.py:76-79 | the padded string is the input followed by at most three `=`, and its length is a multiple of 4 |
| Base64Url.Feed | app.py:80 | one data character moves the decoder to the next position of its quantum and clears the `=` count; a byte is written out exactly when the character is not the first of its quantum |
| Base64Url.UrlsafeB64Decode | app.py:80 | a non-ASCII character makes decoding fail (`ValueError`); ASCII input is decoded by the non-strict `a2b_base64` from the start of a quantum |
| Base64Url.DecodeSafe | app.py:72-83 | "" for empty data, for data with a non-ASCII character and whenever decoding the padded data fails; otherwise the text of the decoded bytes |
| Base64Url.TripleRoundTrip | app.py:80 | the decoder's three byte formulas reassemble the bytes from the encoder's four sextets |
| Base64Url.FourSextets | app.py:80 | four data characters at the start of a quantum write out three bytes and bring the decoder back to the start |
| Base64Url.ThreeSextetsPad | app.py:80 | three data characters and `=` write out two bytes, and decoding stops at that `=` |
| Base64Url.TwoSextetsPads | app.py:80 | two data characters and `==` write out one byte, and decoding stops at the second `=` |
| Base64Url.QuantumRoundTrip | app.py:80 | three bytes encoded as four characters decode back to those bytes, and decoding carries on with what follows |
| Base64Url.QuantumRoundTripTwo | app.py:80 | two bytes encoded as `xxx=` decode back to those two bytes, whatever follows |
| Base64Url.QuantumRoundTripOne | app.py:80 | one byte encoded as `xx==` decodes back to that byte, whatever follows |
| Base64Url.DecodeEncodeThen | app.py:80 | an encoding of whole quanta followed by t decodes to its bytes followed by the decoding of t; an encoding that ends in `=` decodes to its bytes whatever follows |
| Base64Url.DecodeEncode | app.py:80 | decoding any padded encoding gives back exactly the original bytes |
| Base64Url.Encode | app.py:197 | the encoding's length is a multiple of 4, and it is empty exactly when there are no bytes |
| Base64Url.UnpaddedLength | app.py:197 | the encoder adds exactly the padding that completes the last quantum, and none after a whole quantum |
| Base64Url.EncodeShort | app.py:197 | one or two bytes encode as two or three data characters plus two or one `=` |
| Base64Url.EncodeLong | app.py:197 | the encoding of three or more bytes is the first full quantum followed by the encoding of the rest |
| Base64Url.UnpaddedAlphabet | app.py:197 | the unpadded encoding uses only URL-safe alphabet characters |
| Base64Url.EncodeAscii | app.py:197 | every character of an encoding is ASCII, so `urlsafe_b64decode` accepts it |
| Base64Url.StripPadding | app.py:76-79 | removes exactly the trailing `=` characters, as Gmail does before it sends data |
| Base64Url.StripEncode | app.py:76-79 | removing the padding of an encoding leaves precisely its data characters |
| Base64Url.PaddedUnpadded | app.py:76-79 | restoring the padding of the data characters reproduces the full encoding |
| Base64Url.PaddedAfterPads | app.py:76-79 | padding whole quanta followed by n `=` adds `=` up to the next multiple of 4 |
| Base64Url.StrippedEncodingRoundTrip | app.py:76-80 | an encoding with its padding stripped is re-padded to itself and decodes to the original bytes |
| Base64Url.DecodeSafeOf | app.py:72-83 | non-empty ASCII data whose padded form decodes to some bytes gives the text of those bytes |
| Base64Url.DecodeSafeRoundTrip | app.py:72-83 | decoding any encoding, padded or stripped, gives the text of the original bytes; empty bytes give "" |
| Base64Url.PadsAtStart | app.py:80 | `=` at the start of a quantum is ignored, so padding alone decodes to no bytes |
| Base64Url.PadsAfterOne | app.py:80 | one data character followed only by `=` fails, since `=` in the second position is ignored |
| Base64Url.A2bSkips | app.py:80 | a character with no value that is not `=` is skipped wherever it stands, in any decoder state |
| Base64Url.OneOverFails | app.py:80 | data characters that leave one character in the last quantum fail, whatever padding follows them |
| Base64Url.EncodeThenPads | app.py:80 | an encoding followed by any number of `=` decodes to its bytes |
| Base64Url.DecodeSafeBadLength | app.py:76-83 | data made only of characters with a value, of length one more than a multiple of 4, gives "" (`binascii.Error` caught) |
| Base64Url.DecodeSafeExcessPadding | app.py:72-83 | an encoding followed by surplus `=` gives the text of its bytes (`QUJD=` gives `ABC`) |
| Base64Url.DecodeSafeSkipsForeign | app.py:72-83 | an encoding with one ASCII character of no value inserted anywhere gives the text of its bytes (`QUJD.` gives `ABC`) |
| Base64Url.DecodeSafeStopsAtPadding | app.py:72-83 | an encoding that ends in `=`, followed by whole quanta of ASCII, gives the text of the bytes before the `=` (`QQ==QUJD` gives `A`) |
| MimeBody.Truncate | app.py:95 | `s[:n]`: a prefix of s of length min(n, \|s\|) |
| MimeBody.HtmlPreview | app.py:94-95 | the prefix, then the first 500 characters of the HTML, then `...` at the end; length bounded by 27 + 500 + 3 |
| MimeBody.StepPart | app.py:98-114 | one pass of the loop: a child with decoded plain text returns it at once; a return is never empty; a non-empty kept fallback is never lost |
| MimeBody.Scan | app.py:97-116 | the loop over the children: once a fallback is kept, the container's result is non-empty |
| MimeBody.EmailBody | app.py:85-116 | the walk; an HTML payload with inline data gives a text that starts with the preview marker |
| MimeBody.GetEmailBody | app.py:85-116 | the loop with early returns computes exactly the walk `EmailBody` |
| MimeBody.PlainInlineWins | app.py:90-92 | a text/plain node with inline data returns its decoded data, whatever its `parts` hold |
| MimeBody.HtmlInlinePreview | app.py:93-95 | a text/html node with inline data returns the bounded preview, whatever its `parts` hold |
| MimeBody.ScanShortCircuit | app.py:97-114 | the loop from any point returns the text of the first short-circuiting child after that point |
| MimeBody.FirstShortCircuitWins | app.py:97-114 | first plain-text child with data, or first nested genuine text, decides a container, whatever HTML comes before it |
| MimeBody.ScanKeeps | app.py:97-116 | children that contribute nothing leave the kept fallback as the result |
| MimeBody.ScanLastHtml | app.py:103-106 | with no short circuit, the loop returns the last HTML child's decoded data |
| MimeBody.LastHtmlFallback | app.py:97-116 | a container with no short circuit returns its last HTML child's raw decoded data |
| MimeBody.ScanFirstNested | app.py:108-114 | with no HTML child, the loop adopts the first non-empty nested result |
| MimeBody.FirstNestedFallback | app.py:97-116 | with no short circuit and no HTML child, a container returns the first nested preview, which starts with the marker |
| MimeBody.NoUsableChild | app.py:116 | a container whose children give nothing usable returns "" |
| MimeBody.EmptyLeaf | app.py:89-116 | a node without text inline data and without `parts` returns "" |
| MimeBody.PlainBeatsHtmlSibling | app.py:97-102 | in multipart/alternative, plain text wins over an HTML sibling in either order |
| MimeBody.HtmlOnlyChildIsRaw | app.py:103-106 | a container whose only child is HTML returns that child's raw decoded HTML |
| MimeBody.NestedPlainTwoDeep | app.py:108-112 | plain text two containers deep is found |
| MimeBody.MarkerPlainTextLosesToHtml | app.py:108-114 | nested plain text that starts with the marker is taken for a preview and loses to a later HTML sibling |
| SenderName.Leading | app.py:126 | the leading whitespace run: all whitespace, followed by a non-whitespace character or the end |
| SenderName.Trailing | app.py:126 | the trailing whitespace run: all whitespace, preceded by a non-whitespace character or the start |
| SenderName.Strip | app.py:126 | `str.strip()`: the infix between those runs; empty exactly when the input is all whitespace |
| SenderName.StripTrimmed | app.py:126 | a string with no whitespace at either end is left unchanged |
| SenderName.FirstOpener | app.py:124 | finds the earliest `<` that the final `>` closes around a non-empty, `>`-free address; none exists when it finds nothing |
| SenderName.SpaceRunStart | app.py:124 | `\s*`: the start of the maximal whitespace run before the `<` |
| SenderName.MatchSender | app.py:124 | the match fails exactly when no `<` opens a final `>`-terminated address; on success group 2 is non-empty and free of `>` |
| SenderName.MatchSenderIsRegex | app.py:124 | the match fails exactly when no split exists; on success group 1 is the shortest possible (lazy `.*?`), then whitespace, `<`, a non-empty `>`-free group 2, `>` |
| SenderName.ShortestGroupOne | app.py:124 | no group 1 shorter than the chosen one admits a match |
| SenderName.MatchShape | app.py:124 | the input splits into group 1, whitespace, `<`, group 2 and `>` |
| SenderName.MatchAt | app.py:124 | an input whose first `<` opens the address matches with the groups taken at that `<` |
| SenderName.Unquote | app.py:128-129 | drops one leading and one trailing `"` when both are present; a lone `"` gives "" |
| SenderName.ExtractSenderName | app.py:120-131 | no match returns the input, as does any input not ending in `>`; a match returns the trimmed, unquoted name when that is non-empty and the address when it is empty, so never "" |
| SenderName.ExtractFormatted | app.py:124-130 | a trimmed name followed by ` <address>` gives the unquoted name, or the address when that is empty |
| SenderName.FormatThenExtract | app.py:120-131 | `Name <address>` gives back exactly `Name` |
| SenderName.QuotedFormatThenExtract | app.py:126-129 | `"Name" <address>` gives back exactly `Name`, without quotes |
| SenderName.AddressOnly | app.py:130 | `<address>`, even with whitespace before it, gives the address |
| SenderName.BareQuotesGiveAddress | app.py:127-130 | a name that is `"` or `""` unquotes to nothing, so the address is returned |
| Headers.FirstValue | app.py:163 | the value of the first header with exactly that name, or the default when there is none |
| Headers.FirstValueCons | app.py:163 | a header in front decides the lookup when its name matches, and is skipped otherwise |
| Headers.FirstValueAppendOther | app.py:163 | once a header of that name exists, headers appended later do not change the result |
| Headers.Summarize | app.py:163-165 | sender name from the first `From` value; with no `From` both sender fields are "Unknown Sender"; with no `Subject` the subject is "No Subject" |
| Headers.ContentOf | app.py:240-243 | the content endpoint: the full sender is the first `From` value and the name is extracted from it; with no `From` both are "Unknown Sender"; with no `Subject` the subject is "No Subject"; the body is the walk of the payload |
| Headers.SenderFromFormattedHeader | app.py:163-164 | a first `From` header `Name <address>` surfaces as `Name`, whatever headers follow |

## Left out

- `get_gmail_service`, the OAuth flow, the token file and the Gmail API calls are not modelled. Listing messages, fetching them, marking one read and sending are I/O.
- The Flask routes and their JSON responses are not modelled. Neither are the `/generate-reply` call to the language model and the message `id` and `snippet` fields of a summary, which come straight from the API.
- `create_message` is not modelled apart from its final `urlsafe_b64encode`. Building the MIME message is library code.
- Logging (`print`) and the bare `except` clauses are not modelled. The only effect those clauses have on a result is the "" of `base64_decode_safe`, and that is modelled.
- UTF-8 decoding with replacement is a parameter (`Base64Url.Utf8Decoder`), not a definition. The round trips are therefore stated up to that function.
- Base64Url.DecodeSafe: the decoder follows CPython's `binascii.a2b_base64` with `strict_mode=False`, the parameter that exists from Python 3.11 on. Earlier releases may handle `=` in the third position of a quantum differently, and that is not modelled.
- MimeBody.WellFormed: the `KeyError` raised when a text/plain or text/html child has no `body` is not modelled. This precondition of the walk excludes such payloads. It also excludes body-less text children that the walk never reaches, such as those after a child that returns, or below a payload with inline text data. Gmail always sends `body`.
- SenderName.IsSpace: whitespace covers the ASCII characters seen by `\s` and `str.strip()`. Unicode spaces are not included.
- SenderName.MatchSender: `.` refusing a newline and `$` matching before a final newline are not modelled. Header values reach the function unfolded, on one line.
