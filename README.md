# Gmail MCP server core, modelled in Dafny

This project models the message-handling core of the Gmail MCP server. The server is a Node.js
adapter that lets an MCP client send, draft, list and read Gmail messages. The model covers:

- **Outbound messages** (`createMessage`). The compose request becomes header lines, and then
  either a single base64 body or a `multipart/mixed` frame. The frame holds a body part and one
  part per readable attachment. The whole message is UTF-8 encoded and then base64url encoded
  without padding.
- **Inbound messages** (`formatEmailData`). This covers case-insensitive header lookup
  (`getHeader`), the one-level body search (`extractBody`) and the recursive attachment
  collection (`extractAttachments`).
- **Credentials and tokens**. This covers which client secret `loadCredentials` uses, and what
  `loadOrGetToken` does with a stored token: install it, refresh it, or get a new one.
- **Input checks**. This covers the address pattern of `validateEmailAddresses`, the field
  constraints of `EmailValidationSchema`, and both branches of `sanitizeEmailContent`.

Modules, one file each:

- `Wrappers`: `Option` and `Result`.
- `Bytes`: the byte type.
- `Text`: joining and splitting CRLF lines, prefixes, first index, and ASCII lower case.
- `Utf8`: encoding of RFC 3629, with its decoder.
- `Base64`: the alphabet of section 4 of RFC 4648, and the URL-safe alphabet without padding of
  section 5.
- `Mail`: the compose request, recipient normalisation and `path.basename`.
- `MessageEncoder`: `createMessage` and the multipart frame of section 5.1.1 of RFC 2046.
- `MessageDecoder`: `formatEmailData`.
- `Auth`: `loadCredentials` and `loadOrGetToken`.
- `Validation`: the address pattern and the schema.
- `Sanitize`: `sanitizeEmailContent`.

`CreateMessage`, `ExtractAttachments` and `FormatEmailData` are methods because the source builds
their results step by step: it pushes lines, or it pushes to a shared list inside a loop. Each
method is proved equal to a specification function, and the properties are proved about that
function. The rest of the core is expressions, so it is modelled as functions and lemmas.

## Model

| member | source | states |
|---|---|---|
| MessageEncoder.CreateMessage | src/gmail-service.js:155-232 | The line-pushing loop over attachment paths returns exactly the base64url text of the message that the specification functions describe |
| MessageEncoder.HeaderOrder | src/gmail-service.js:164-220 | The header names are, in order: To, Subject, then Cc and Bcc only when those lists are non-empty, then MIME-Version and Content-Type, then Content-Transfer-Encoding only for a single-part message |
| MessageEncoder.BodyTypeFollowsHtml | src/gmail-service.js:190 | The body's Content-Type is text/html exactly when `html` is set, and text/plain exactly when it is not |
| MessageEncoder.ParseFrame | src/gmail-service.js:186-213 | A frame parser of RFC 2046 recovers every part, in order, from the delimited frame, as long as no part contains a delimiter line |
| MessageEncoder.FrameCount | src/gmail-service.js:186-213 | A frame of n parts has exactly n delimiter lines and exactly one close-delimiter line |
| MessageEncoder.MultipartStructure | src/gmail-service.js:179-215 | With attachments, a blank line follows the header block, and the frame after it parses back to the body part followed by one part per readable attachment; it has that many delimiters plus one close delimiter |
| MessageEncoder.AttachmentPartsInOrder | src/gmail-service.js:196-211 | The attachment parts follow the readable paths in order, each built from its own file's name and contents, and there are no more of them than paths |
| MessageEncoder.UnreadableSkipped | src/gmail-service.js:208-210 | A path whose file cannot be read contributes no part; the parts are those of the remaining paths |
| MessageEncoder.WireRoundTrip | src/gmail-service.js:226-231 | The raw string contains no '+', '/' or '='; base64url decoding gives back the UTF-8 bytes of the message text, and UTF-8 decoding gives back the text |
| MessageEncoder.MessageLinesRecovered | src/gmail-service.js:215-223 | When no header value, path or boundary contains a CR, splitting the message text at CRLF gives back exactly the lines that were joined |
| MessageEncoder.BodyRecovered | src/gmail-service.js:193-223 | The body line is the base64 of the UTF-8 body and decodes back to the body; a single-part message is its header block, a blank line and that line |
| Mail.RecipientNormalisation | src/gmail-service.js:159-161 | A single `to` string becomes a one-element list. An absent or empty cc or bcc becomes the empty list. A list passes through unchanged |
| Mail.Basename | src/gmail-service.js:198 | The file name is the last segment of the path once its trailing slashes are dropped: it has no '/', and starts at the beginning of the trimmed path or just after a '/'. It uses only characters of the path, and is the whole path when the path has no '/' |
| Mail.BasenameOf | src/gmail-service.js:198 | The file name of `d/n`, followed by any number of '/', is exactly `n` when `n` is a non-empty name without '/' |
| Mail.LastSegment | src/gmail-service.js:198 | The last segment has no '/' and is a suffix of the path that starts at its beginning or just after a '/' |
| Mail.LastSegmentOf | src/gmail-service.js:198 | Those two conditions pin the segment down: for `d/n` with `n` free of '/', any such suffix is `n` |
| Mail.TrimTrailingSlashes | src/gmail-service.js:198 | The result is a prefix of the path that does not end in '/', and every character removed is a '/' |
| Base64.DecodeEncode | src/gmail-service.js:193 | Decoding the standard base64 of a byte string gives back the bytes |
| Base64.EncodeShape | src/gmail-service.js:193 | The encoding is alphabet characters followed by at most two '=' padding characters |
| Base64.UrlRoundTrip | src/gmail-service.js:227-231 | The URL-safe form has no '+', '/' or '='; restoring the alphabet and the padding gives back the standard encoding, and decoding gives back the bytes |
| Utf8.DecodeEncode | src/gmail-service.js:193 | Decoding the UTF-8 encoding of a string gives back the string |
| Text.SplitJoin | src/gmail-service.js:215 | Splitting a CRLF join of lines that have no CR gives back the lines |
| MessageDecoder.GetHeader | src/gmail-service.js:370-371 | The value of the first header whose name matches ignoring case; "" when that value is absent or nothing matches |
| MessageDecoder.GetHeaderIgnoresCase | src/gmail-service.js:371 | Names that are equal ignoring case look up the same value |
| MessageDecoder.FirstHeaderWins | src/gmail-service.js:371 | A matching header earlier in the list hides every later one |
| MessageDecoder.OtherHeaderIgnored | src/gmail-service.js:371 | Inserting or removing a header with another name anywhere does not change the result |
| MessageDecoder.ExtractBody | src/gmail-service.js:377-393 | The decoded payload data when there is any; otherwise the decoded data of the first direct text/plain or text/html part that has data; otherwise "" |
| MessageDecoder.NestedTextNotFound | src/gmail-service.js:382-390 | A text part nested one level deeper, inside a multipart/alternative part, is not found |
| MessageDecoder.TopLevelDataWins | src/gmail-service.js:378-380 | When the payload has data of its own, its parts do not affect the body |
| MessageDecoder.ExtractAttachments | src/gmail-service.js:398-414 | The recursive walk appends, to what was collected, the attachments of the payload in document order |
| MessageDecoder.AttachmentsAreNamedDescendants | src/gmail-service.js:398-414 | An entry is listed exactly when it describes a descendant part with a non-empty filename, in both directions |
| MessageDecoder.FlatAttachments | src/gmail-service.js:400-408 | When no child has parts, the list is the named children in order |
| MessageDecoder.ParentBeforeChildren | src/gmail-service.js:400-411 | The walk is pre-order: a named first child's entry comes first, then exactly the named parts below that child, then exactly the named parts below its later siblings |
| MessageDecoder.FormatEmailData | src/gmail-service.js:369-435 | Ids and the size pass through. Labels default to [] and the snippet to "". The six fields come from header lookup. Body and attachments are extracted only when asked for and a payload exists; otherwise they are "" and [] |
| Auth.LoadCredentials | src/gmail-service.js:42-66 | The installed entry is preferred and the web entry is used otherwise. A file with neither fails with "Invalid credentials format". Every failure is wrapped in the same advice |
| Auth.LoadCredentialsSucceeds | src/gmail-service.js:48-62 | Loading succeeds exactly when the file was read and has one of the two entries, and the result is one of them |
| Auth.LoadOrGetToken | src/gmail-service.js:68-83 | A stored token is always installed. It is refreshed exactly when it is stale and the refresh works. A new token is fetched exactly when there is no stored token or the refresh fails |
| Auth.ZeroExpiryNeverStale | src/gmail-service.js:76 | An expiry date of 0 is never stale, so the token is kept |
| Auth.StalenessIsMonotone | src/gmail-service.js:76 | A stale token stays stale as the clock advances |
| Validation.ValidIffPattern | src/validation.js:40 | The decision procedure accepts exactly the strings that are a local part, '@', a domain head, '.' and a domain tail, each non-empty and free of whitespace and '@' |
| Validation.ValidateEmailAddresses | src/validation.js:38-49 | It succeeds exactly when every address is valid, and then returns them as a list; otherwise the error names the first invalid address |
| Validation.SingleAddress | src/validation.js:39-48 | A single address comes back as a one-element list when it matches the pattern, and is named in the error otherwise |
| Validation.JsLengthBounds | src/validation.js:9-16 | The UTF-16 length lies between the number of characters and twice that number, and equals it without astral characters |
| Validation.ParseSendArgs | src/validation.js:3-36 | A rejected argument set always carries at least one issue |
| Validation.AddressIssuesOf | src/validation.js:4-26 | An address field has no issue exactly when it is present with every address passing `.email()`, or absent and optional. A missing `to` gives "Invalid input" at ["to"], a failing single address gives "Invalid email" at the field, and a list gives one "Invalid email" at [field, i] for each failing element i, and nothing else |
| Validation.ParseAcceptsExactlySchema | src/validation.js:3-36 | The schema accepts exactly the arguments that meet every field constraint; the accepted fields pass through, and `html` is false unless it was given as true |
| Validation.SubjectLengthBounds | src/validation.js:9-12 | An empty subject is rejected as empty. One over 998 characters is rejected as too long. One of 1 to 499 characters is accepted |
| Sanitize.SanitizePlainNormalises | src/validation.js:52-55 | The two replacements equal a single pass that turns CRLF and a lone CR into LF |
| Sanitize.SanitizePlainProperties | src/validation.js:52-55 | Plain text comes out with no CR, unchanged when it had none, and sanitising twice equals sanitising once |
| Sanitize.NormaliseKeepsOtherText | src/validation.js:54 | Apart from line ends, the text is unchanged |
| Sanitize.StripUnchangedMeansNoBlock | src/validation.js:58-60 | One pass leaves the text unchanged exactly when it contains no block of the tag; otherwise the text gets strictly shorter |
| Sanitize.StripWithoutBlock | src/validation.js:58-60 | Text without a block of the tag is unchanged |
| Sanitize.StripKeepsPlainPrefix | src/validation.js:58-60 | Text before the first '<' is kept, and stripping continues after it |
| Sanitize.BlockAtStart | src/validation.js:59-60 | An opening tag whose name matches the tag in any letter case, followed by text that does not continue the name, is matched up to the end of the first closing tag after it, in any letter case |
| Sanitize.StripRemovesBlock | src/validation.js:59-60 | Such a block at the start of the text, with attributes or none and tags in any letter case, is removed whole, and scanning resumes after it |
| Sanitize.StripBlocks | src/validation.js:59-60 | One pass only deletes: it never lengthens the text, and the characters it keeps appear in the input, in the same order |
| Sanitize.BlockShape | src/validation.js:59-60 | Every match is '<', a name equal to the tag in any letter case, text that does not continue the name and holds no closing tag, then the closing tag in any letter case |
| Sanitize.UnclosedTagKept | src/validation.js:59-60 | An opening tag with no closing tag after it is not removed, and neither is anything else in the text |
| Sanitize.StripKeepsPrefixWithoutBlock | src/validation.js:59-60 | Text in which no block starts is kept in place, and stripping goes on after it |
| Sanitize.StripFirstBlock | src/validation.js:59-60 | The text before the first block is kept, the block is removed whole, and stripping resumes after it |
| Sanitize.ClosingTagSurvives | src/validation.js:58-60 | A stray closing tag is not removed |
| Sanitize.SanitizeHtmlShortens | src/validation.js:58-60 | HTML sanitising never lengthens the text, and shortens it whenever it changes it |
| Sanitize.SinglePassLeavesScript | src/validation.js:58-60 | The code as written turns a crafted input into a complete script block that survives sanitising |
| Sanitize.SplitTagReassembles | src/validation.js:59 | Removing an empty block that sits inside a split tag name joins the two halves of the tag |
| Sanitize.SanitizeHtmlDeletesOnly | src/validation.js:58-60 | The two passes as written return a subsequence of the input, and return the input unchanged exactly when it holds no script or iframe block |
| Sanitize.SanitizeEmailContent | src/validation.js:51-61 | As written: plain text comes out with no CR, and unchanged when it had none. HTML comes out as a subsequence of the input, never longer, and unchanged exactly when it holds no script or iframe block |
| Sanitize.SanitizeHtmlFixed | src/validation.js:58-60 | Repeating the passes until nothing changes leaves no script or iframe block and is a fixed point of the passes. The result is a subsequence of the input, and is the input itself when that holds no block |
| Sanitize.FixedAgreesWhenOnePassSuffices | src/validation.js:58-60 | The repeated sanitiser gives the same result as the source's whenever one pass already leaves no block |
| Sanitize.SanitizeEmailContentFixed | src/validation.js:51-61 | HTML content comes out with no script or iframe block, as a subsequence of the input, and unchanged when it had no block; plain content is normalised as before |

## Left out

- The Gmail API calls are not part of this model. Those are list, get, send, drafts, labels, modify and trash, and `Promise.all` over listed ids. They are remote calls whose results are inputs here.
- The MCP tool dispatch in src/index.js and the CLI scripts are not part of this model. They are I/O wiring around the core.
- File reads become inputs. Attachment files are a map from path to bytes, and a path missing from the map is a read that failed. credentials.json and token.json arrive already parsed, or as their read or parse error.
- The boundary is a parameter. The source builds it from `Date.now()` and `Math.random()`.
- `getNewToken`, `refreshToken` and the `AUTH_CODE` environment variable are not part of this model. The token decision takes a flag that says whether a refresh succeeds. Writing token.json and the console messages are I/O.
- The `console.error` of a failed attachment read is I/O.
- MessageDecoder.ExtractBody: the base64 and UTF-8 decoding of inbound data is a `decode` parameter. Node's `Buffer` decoding is lenient: it skips bad characters and replaces bad sequences.
- Validation.ParseSendArgs: `.email()` is an `isEmail` parameter, not Zod's own pattern. Each issue is reduced to its path and message, and the messages are those of Zod 3. The package manifest that pins the Zod version is not part of this model, and Zod 4 words its messages differently. Issue codes, the nested `unionErrors` of an "Invalid input" issue, and JSON values of the wrong type are not modelled.
- Text.Lower folds only ASCII letters. `toLowerCase` folds all of Unicode. The header names the source looks up are ASCII.
- Dafny characters are Unicode scalar values, so a JavaScript string holding a lone surrogate cannot be represented.
- MessageDecoder.GetHeader: a header with no name is not modelled. The source would throw on `h.name.toLowerCase()`.
- In the decoder, an absent filename, body, data or parts list is the empty value. The source treats the empty and absent values alike at every test it makes.
- MessageEncoder.MessageLinesRecovered requires that no header value, path or boundary contains a CR. The source does no such check, so a CR or LF in the subject or an address can inject header lines.
- Sanitize: the `i` flag is modelled as ASCII case folding of the tag names. For a pattern without the `u` flag, JavaScript folds case this way too. The `\b` after the tag name is modelled as "the next character is not an ASCII letter, digit or '_'", as in JavaScript.
- `extractBody` (src/gmail-service.js:377-393) looks only at the payload's own data and at its direct children, not deeper.
- The model follows the code, not the comments around it, in two places:
  - An `expiry_date` of 0 is never stale, because 0 is false in JavaScript. The comment at src/gmail-service.js:75 says only "Check if token needs refresh".
  - A failed refresh is caught and falls back to `getNewToken`, so no expired-token error reaches the caller. The comment at src/gmail-service.js:80 says "Token doesn't exist or is invalid, get new one", but the same handler also catches a failed refresh.

## Findings

| source | as written | input that shows it | evidently intended | confidence | as-written member | corrected member |
|---|---|---|---|---|---|---|
| src/validation.js:58-60 | Each tag's pattern is applied in a single pass. Removing one block can join the pieces around it into a new block, which survives | `<scr<script></script>ipt>x</script>` becomes `<script>x</script>` | Sanitised HTML contains no script or iframe block | not executed; proved on the model of the regular expressions (medium) | Sanitize.SinglePassLeavesScript | Sanitize.SanitizeHtmlFixed |
