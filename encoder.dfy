/**
 * The outbound message encoder (`createMessage`): header lines, a single base64 body or a
 * multipart/mixed body with one part per readable attachment, and the base64url wire form.
 * The boundary, which the source draws from the clock and a random number, is a parameter;
 * the files are a map from path to content, a missing path being a file that cannot be read.
 */
module MessageEncoder {
  import opened Wrappers
  import opened Bytes
  import opened Text
  import Utf8
  import Base64
  import opened Mail

  /** `${name}: ${value}`. */
  function HeaderLine(name: string, value: string): string {
    name + ": " + value
  }

  const MimeVersion: string := HeaderLine("MIME-Version", "1.0")
  const TransferEncoding: string := HeaderLine("Content-Transfer-Encoding", "base64")
  const OctetStream: string := HeaderLine("Content-Type", "application/octet-stream")

  function BodyContentType(html: bool): string {
    HeaderLine("Content-Type", (if html then "text/html" else "text/plain") + "; charset=utf-8")
  }

  function MultipartContentType(boundary: string): string {
    HeaderLine("Content-Type", "multipart/mixed; boundary=\"" + boundary + "\"")
  }

  function DispositionLine(fileName: string): string {
    HeaderLine("Content-Disposition", "attachment; filename=\"" + fileName + "\"")
  }

  /** The address header lines: To, Subject, then Cc and Bcc only when their lists are non-empty. */
  function AddressHeaders(req: ComposeRequest): seq<string> {
    var cc := OptionalList(req.cc);
    var bcc := OptionalList(req.bcc);
    [HeaderLine("To", Join(AsList(req.to), ", ")), HeaderLine("Subject", req.subject)]
    + (if |cc| > 0 then [HeaderLine("Cc", Join(cc, ", "))] else [])
    + (if |bcc| > 0 then [HeaderLine("Bcc", Join(bcc, ", "))] else [])
  }

  /** `attachments && attachments.length > 0`. */
  predicate IsMultipart(req: ComposeRequest) {
    req.attachments.Some? && |req.attachments.value| > 0
  }

  function BodyBase64(req: ComposeRequest): string {
    Base64.Encode(Utf8.Encode(req.body))
  }

  /** The lines of the text part that follow its delimiter. */
  function BodyPart(req: ComposeRequest): seq<string> {
    [BodyContentType(req.html), TransferEncoding, "", BodyBase64(req)]
  }

  /** The lines of an attachment part that follow its delimiter. */
  function AttachmentPart(path: string, content: seq<Byte>): seq<string> {
    [OctetStream, DispositionLine(Basename(path)), TransferEncoding, "", Base64.Encode(content)]
  }

  /** The attachment paths that can be read, in input order. */
  function Readable(paths: seq<string>, files: map<string, seq<Byte>>): seq<string> {
    if paths == [] then []
    else (if paths[0] in files then [paths[0]] else []) + Readable(paths[1..], files)
  }

  /** One part per readable attachment, in input order; the others are skipped. */
  function AttachmentParts(paths: seq<string>, files: map<string, seq<Byte>>): seq<seq<string>> {
    if paths == [] then []
    else
      (if paths[0] in files then [AttachmentPart(paths[0], files[paths[0]])] else [])
      + AttachmentParts(paths[1..], files)
  }

  function Delimiter(boundary: string): string {
    "--" + boundary
  }

  function CloseDelimiter(boundary: string): string {
    "--" + boundary + "--"
  }

  /** Every part preceded by its delimiter line (section 5.1.1 of RFC 2046). */
  function Delimited(parts: seq<seq<string>>, boundary: string): seq<string> {
    if parts == [] then [] else [Delimiter(boundary)] + parts[0] + Delimited(parts[1..], boundary)
  }

  /** A multipart body: the delimited parts, then the close delimiter. */
  function Frame(parts: seq<seq<string>>, boundary: string): seq<string> {
    Delimited(parts, boundary) + [CloseDelimiter(boundary)]
  }

  function HeaderBlock(req: ComposeRequest, boundary: string): seq<string> {
    AddressHeaders(req)
    + if IsMultipart(req) then [MimeVersion, MultipartContentType(boundary)]
      else [MimeVersion, BodyContentType(req.html), TransferEncoding]
  }

  function BodyLines(req: ComposeRequest, files: map<string, seq<Byte>>, boundary: string): seq<string> {
    if IsMultipart(req) then
      Frame([BodyPart(req)] + AttachmentParts(req.attachments.value, files), boundary)
    else [BodyBase64(req)]
  }

  /** The message as lines: the header block, an empty line, then the body. */
  function MessageLines(req: ComposeRequest, files: map<string, seq<Byte>>, boundary: string): seq<string> {
    HeaderBlock(req, boundary) + [""] + BodyLines(req, files, boundary)
  }

  function MessageText(req: ComposeRequest, files: map<string, seq<Byte>>, boundary: string): string {
    Join(MessageLines(req, files, boundary), CRLF)
  }

  /** The wire form: the UTF-8 octets of the message text as unpadded base64url. */
  function EncodedMessage(req: ComposeRequest, files: map<string, seq<Byte>>, boundary: string): string {
    Base64.ToUrl(Base64.Encode(Utf8.Encode(MessageText(req, files, boundary))))
  }

  lemma {:induction false} AttachmentPartsConcat(xs: seq<string>, ys: seq<string>, files: map<string, seq<Byte>>)
    ensures AttachmentParts(xs + ys, files) == AttachmentParts(xs, files) + AttachmentParts(ys, files)
  {
    if xs == [] {
      assert xs + ys == ys;
    } else {
      assert (xs + ys)[1..] == xs[1..] + ys;
      AttachmentPartsConcat(xs[1..], ys, files);
    }
  }

  lemma {:induction false} DelimitedConcat(ps: seq<seq<string>>, qs: seq<seq<string>>, boundary: string)
    ensures Delimited(ps + qs, boundary) == Delimited(ps, boundary) + Delimited(qs, boundary)
  {
    if ps == [] {
      assert ps + qs == qs;
    } else {
      assert (ps + qs)[1..] == ps[1..] + qs;
      DelimitedConcat(ps[1..], qs, boundary);
    }
  }

  /** One turn of the attachment loop: a readable attachment adds its delimiter and part, another adds nothing. */
  lemma PartsStep(req: ComposeRequest, attachments: seq<string>, i: nat, files: map<string, seq<Byte>>, boundary: string)
    requires i < |attachments|
    ensures var p := attachments[i];
      var before := Delimited([BodyPart(req)] + AttachmentParts(attachments[..i], files), boundary);
      var after := Delimited([BodyPart(req)] + AttachmentParts(attachments[..i + 1], files), boundary);
      && (p in files ==> after == before + [Delimiter(boundary), OctetStream, DispositionLine(Basename(p)), TransferEncoding, "", Base64.Encode(files[p])])
      && (p !in files ==> after == before)
  {
    var p := attachments[i];
    var done := [BodyPart(req)] + AttachmentParts(attachments[..i], files);
    AttachmentPartsConcat(attachments[..i], [p], files);
    assert attachments[..i + 1] == attachments[..i] + [p];
    assert AttachmentParts([p], files)
      == (if p in files then [AttachmentPart(p, files[p])] else []);
    if p in files {
      var part := AttachmentPart(p, files[p]);
      DelimitedConcat(done, [part], boundary);
      assert Delimited([part], boundary) == [Delimiter(boundary)] + part;
      assert [BodyPart(req)] + AttachmentParts(attachments[..i + 1], files) == done + [part];
    } else {
      assert [BodyPart(req)] + AttachmentParts(attachments[..i + 1], files) == done;
    }
  }

  /** The message text is the header block and the body, each joined, with an empty line between. */
  lemma MessageTextParts(req: ComposeRequest, files: map<string, seq<Byte>>, boundary: string)
    ensures MessageText(req, files, boundary)
      == Join(HeaderBlock(req, boundary), CRLF) + CRLF + CRLF + Join(BodyLines(req, files, boundary), CRLF)
  {
    assert |HeaderBlock(req, boundary)| >= 2;
    JoinAroundBlankLine(HeaderBlock(req, boundary), BodyLines(req, files, boundary), CRLF);
  }

  /** `createMessage`: builds the header and part arrays as the source does and encodes the result. */
  method CreateMessage(req: ComposeRequest, files: map<string, seq<Byte>>, boundary: string) returns (raw: string)
    ensures raw == EncodedMessage(req, files, boundary)
  {
    var toArray := AsList(req.to);
    var ccArray := OptionalList(req.cc);
    var bccArray := OptionalList(req.bcc);

    var headers := [HeaderLine("To", Join(toArray, ", ")), HeaderLine("Subject", req.subject)];
    if |ccArray| > 0 {
      headers := headers + [HeaderLine("Cc", Join(ccArray, ", "))];
    }
    if |bccArray| > 0 {
      headers := headers + [HeaderLine("Bcc", Join(bccArray, ", "))];
    }
    assert headers == AddressHeaders(req);

    var emailContent: string;
    if req.attachments.Some? && |req.attachments.value| > 0 {
      var attachments := req.attachments.value;
      headers := headers + [MimeVersion];
      headers := headers + [MultipartContentType(boundary)];

      var parts := [Delimiter(boundary)];
      parts := parts + [BodyContentType(req.html)];
      parts := parts + [TransferEncoding];
      parts := parts + [""];
      parts := parts + [Base64.Encode(Utf8.Encode(req.body))];
      assert parts == Delimited([BodyPart(req)], boundary);

      for i := 0 to |attachments|
        invariant parts == Delimited([BodyPart(req)] + AttachmentParts(attachments[..i], files), boundary)
      {
        var attachmentPath := attachments[i];
        PartsStep(req, attachments, i, files, boundary);
        if attachmentPath in files {
          var fileName := Basename(attachmentPath);
          var base64Content := Base64.Encode(files[attachmentPath]);
          parts := parts + [Delimiter(boundary), OctetStream, DispositionLine(fileName), TransferEncoding, "", base64Content];
        }
      }
      assert attachments[..|attachments|] == attachments;
      parts := parts + [CloseDelimiter(boundary)];
      assert parts == BodyLines(req, files, boundary);
      assert headers == HeaderBlock(req, boundary);

      emailContent := Join(headers, CRLF) + CRLF + CRLF + Join(parts, CRLF);
    } else {
      headers := headers + [MimeVersion, BodyContentType(req.html), TransferEncoding];
      var bodyBase64 := Base64.Encode(Utf8.Encode(req.body));
      assert headers == HeaderBlock(req, boundary);
      assert Join(BodyLines(req, files, boundary), CRLF) == bodyBase64;
      emailContent := Join(headers, CRLF) + CRLF + CRLF + bodyBase64;
    }
    MessageTextParts(req, files, boundary);

    raw := Base64.ToUrl(Base64.Encode(Utf8.Encode(emailContent)));
  }

  // ---------------------------------------------------------------------------------------
  // Header order

  /** The field name of a header line: the text before its first ':'. */
  function HeaderName(line: string): string {
    match IndexOf(line, ':')
    case Some(k) => line[..k]
    case None => line
  }

  function HeaderNames(lines: seq<string>): seq<string> {
    seq(|lines|, i requires 0 <= i < |lines| => HeaderName(lines[i]))
  }

  lemma HeaderNameOf(name: string, value: string)
    requires ':' !in name
    ensures HeaderName(HeaderLine(name, value)) == name
  {
    var line := HeaderLine(name, value);
    assert line[|name|] == ':';
    assert line[..|name|] == name;
  }

  lemma HeaderNamesConcat(a: seq<string>, b: seq<string>)
    ensures HeaderNames(a + b) == HeaderNames(a) + HeaderNames(b)
  {
  }

  lemma AddressHeaderNames(req: ComposeRequest)
    ensures HeaderNames(AddressHeaders(req))
      == ["To", "Subject"]
         + (if |OptionalList(req.cc)| > 0 then ["Cc"] else [])
         + (if |OptionalList(req.bcc)| > 0 then ["Bcc"] else [])
  {
    var cc, bcc := OptionalList(req.cc), OptionalList(req.bcc);
    HeaderNameOf("To", Join(AsList(req.to), ", "));
    HeaderNameOf("Subject", req.subject);
    var first := [HeaderLine("To", Join(AsList(req.to), ", ")), HeaderLine("Subject", req.subject)];
    var ccLines := if |cc| > 0 then [HeaderLine("Cc", Join(cc, ", "))] else [];
    var bccLines := if |bcc| > 0 then [HeaderLine("Bcc", Join(bcc, ", "))] else [];
    assert HeaderNames(first) == ["To", "Subject"];
    if |cc| > 0 {
      HeaderNameOf("Cc", Join(cc, ", "));
    }
    assert HeaderNames(ccLines) == if |cc| > 0 then ["Cc"] else [];
    if |bcc| > 0 {
      HeaderNameOf("Bcc", Join(bcc, ", "));
    }
    assert HeaderNames(bccLines) == if |bcc| > 0 then ["Bcc"] else [];
    assert AddressHeaders(req) == first + ccLines + bccLines;
    HeaderNamesConcat(first + ccLines, bccLines);
    HeaderNamesConcat(first, ccLines);
  }

  lemma HeaderNamesOfTwo(x: string, y: string)
    ensures HeaderNames([x, y]) == [HeaderName(x), HeaderName(y)]
  {
  }

  lemma HeaderNamesOfThree(x: string, y: string, z: string)
    ensures HeaderNames([x, y, z]) == [HeaderName(x), HeaderName(y), HeaderName(z)]
  {
  }

  lemma MimeVersionName()
    ensures HeaderName(MimeVersion) == "MIME-Version"
  {
    HeaderNameOf("MIME-Version", "1.0");
  }

  lemma TransferEncodingName()
    ensures HeaderName(TransferEncoding) == "Content-Transfer-Encoding"
  {
    HeaderNameOf("Content-Transfer-Encoding", "base64");
  }

  lemma BodyContentTypeName(html: bool)
    ensures HeaderName(BodyContentType(html)) == "Content-Type"
  {
    HeaderNameOf("Content-Type", (if html then "text/html" else "text/plain") + "; charset=utf-8");
  }

  lemma MultipartContentHeaderNames(boundary: string)
    ensures HeaderNames([MimeVersion, MultipartContentType(boundary)]) == ["MIME-Version", "Content-Type"]
  {
    HeaderNamesOfTwo(MimeVersion, MultipartContentType(boundary));
    MimeVersionName();
    HeaderNameOf("Content-Type", "multipart/mixed; boundary=\"" + boundary + "\"");
  }

  lemma SinglePartContentHeaderNames(html: bool)
    ensures HeaderNames([MimeVersion, BodyContentType(html), TransferEncoding])
      == ["MIME-Version", "Content-Type", "Content-Transfer-Encoding"]
  {
    HeaderNamesOfThree(MimeVersion, BodyContentType(html), TransferEncoding);
    MimeVersionName();
    BodyContentTypeName(html);
    TransferEncodingName();
  }

  lemma ContentHeaderNames(req: ComposeRequest, boundary: string)
    ensures HeaderNames(HeaderBlock(req, boundary)[|AddressHeaders(req)|..])
      == if IsMultipart(req) then ["MIME-Version", "Content-Type"]
         else ["MIME-Version", "Content-Type", "Content-Transfer-Encoding"]
  {
    var tail := HeaderBlock(req, boundary)[|AddressHeaders(req)|..];
    if IsMultipart(req) {
      assert tail == [MimeVersion, MultipartContentType(boundary)];
      MultipartContentHeaderNames(boundary);
    } else {
      assert tail == [MimeVersion, BodyContentType(req.html), TransferEncoding];
      SinglePartContentHeaderNames(req.html);
    }
  }

  /**
   * The header block names its fields in a fixed order: To, Subject, Cc only when there are
   * Cc addresses, Bcc only when there are Bcc addresses, MIME-Version, Content-Type, and for
   * a single-part message Content-Transfer-Encoding.
   */
  lemma HeaderOrder(req: ComposeRequest, boundary: string)
    ensures HeaderNames(HeaderBlock(req, boundary))
      == ["To", "Subject"]
         + (if |OptionalList(req.cc)| > 0 then ["Cc"] else [])
         + (if |OptionalList(req.bcc)| > 0 then ["Bcc"] else [])
         + (if IsMultipart(req) then ["MIME-Version", "Content-Type"]
            else ["MIME-Version", "Content-Type", "Content-Transfer-Encoding"])
  {
    var block := HeaderBlock(req, boundary);
    var n := |AddressHeaders(req)|;
    assert block == AddressHeaders(req) + block[n..];
    HeaderNamesConcat(AddressHeaders(req), block[n..]);
    AddressHeaderNames(req);
    ContentHeaderNames(req, boundary);
  }

  /** The text part is declared text/html exactly when `html` is set, and text/plain otherwise. */
  lemma BodyTypeFollowsHtml(html: bool)
    ensures StartsWith(BodyContentType(html), "Content-Type: text/html") <==> html
    ensures StartsWith(BodyContentType(html), "Content-Type: text/plain") <==> !html
  {
    var line := BodyContentType(html);
    if html {
      assert line[..23] == "Content-Type: text/html";
      assert line[19] != "Content-Type: text/plain"[19];
    } else {
      assert line[..24] == "Content-Type: text/plain";
      assert line[19] != "Content-Type: text/html"[19];
    }
  }

  // ---------------------------------------------------------------------------------------
  // Multipart framing and its reader

  /** Continues reading a multipart body line by line, `current` being the part read so far. */
  function ParseParts(lines: seq<string>, boundary: string, done: seq<seq<string>>, current: seq<string>)
    : Option<seq<seq<string>>>
    decreases |lines|
  {
    if |lines| == 0 then None
    else if lines[0] == CloseDelimiter(boundary) then Some(done + [current])
    else if lines[0] == Delimiter(boundary) then ParseParts(lines[1..], boundary, done + [current], [])
    else ParseParts(lines[1..], boundary, done, current + [lines[0]])
  }

  /**
   * Reads the parts of a multipart body as section 5.1.1 of RFC 2046 describes it: the lines
   * between delimiter lines, up to the close delimiter; None when the body is not framed so.
   */
  function ParseMultipart(lines: seq<string>, boundary: string): Option<seq<seq<string>>> {
    if |lines| == 0 || lines[0] != Delimiter(boundary) then None
    else ParseParts(lines[1..], boundary, [], [])
  }

  predicate NoDelimiterLine(part: seq<string>, boundary: string) {
    forall i :: 0 <= i < |part| ==> part[i] != Delimiter(boundary) && part[i] != CloseDelimiter(boundary)
  }

  lemma {:induction false} ParseContent(
    p: seq<string>, rest: seq<string>, boundary: string, done: seq<seq<string>>, current: seq<string>)
    requires NoDelimiterLine(p, boundary)
    ensures ParseParts(p + rest, boundary, done, current) == ParseParts(rest, boundary, done, current + p)
    decreases |p|
  {
    if p == [] {
      assert p + rest == rest && current + p == current;
    } else {
      assert (p + rest)[0] == p[0] && (p + rest)[1..] == p[1..] + rest;
      ParseContent(p[1..], rest, boundary, done, current + [p[0]]);
      assert current + [p[0]] + p[1..] == current + p;
    }
  }

  lemma {:induction false} ParseFrameFrom(parts: seq<seq<string>>, boundary: string, done: seq<seq<string>>)
    requires |parts| >= 1
    requires forall k :: 0 <= k < |parts| ==> NoDelimiterLine(parts[k], boundary)
    ensures ParseParts(parts[0] + Delimited(parts[1..], boundary) + [CloseDelimiter(boundary)], boundary, done, [])
      == Some(done + parts)
    decreases |parts|
  {
    var rest := Delimited(parts[1..], boundary) + [CloseDelimiter(boundary)];
    assert parts[0] + Delimited(parts[1..], boundary) + [CloseDelimiter(boundary)] == parts[0] + rest;
    ParseContent(parts[0], rest, boundary, done, []);
    assert [] + parts[0] == parts[0];
    if |parts| == 1 {
      assert rest == [CloseDelimiter(boundary)];
      assert done + [parts[0]] == done + parts;
    } else {
      var tail := parts[1..];
      assert rest == [Delimiter(boundary)] + (tail[0] + Delimited(tail[1..], boundary) + [CloseDelimiter(boundary)]);
      assert Delimiter(boundary) != CloseDelimiter(boundary) by {
        assert |Delimiter(boundary)| != |CloseDelimiter(boundary)|;
      }
      ParseFrameFrom(tail, boundary, done + [parts[0]]);
      assert done + [parts[0]] + tail == done + parts;
    }
  }

  /** Reading a framed body gives back exactly its parts, in order, when no part holds a delimiter line. */
  lemma ParseFrame(parts: seq<seq<string>>, boundary: string)
    requires |parts| >= 1
    requires forall k :: 0 <= k < |parts| ==> NoDelimiterLine(parts[k], boundary)
    ensures ParseMultipart(Frame(parts, boundary), boundary) == Some(parts)
  {
    var f := Frame(parts, boundary);
    assert f == [Delimiter(boundary)] + (parts[0] + Delimited(parts[1..], boundary) + [CloseDelimiter(boundary)]);
    assert f[1..] == parts[0] + Delimited(parts[1..], boundary) + [CloseDelimiter(boundary)];
    ParseFrameFrom(parts, boundary, []);
    assert [] + parts == parts;
  }

  function CountOf(lines: seq<string>, x: string): nat {
    if lines == [] then 0 else (if lines[0] == x then 1 else 0) + CountOf(lines[1..], x)
  }

  lemma {:induction false} CountOfConcat(a: seq<string>, b: seq<string>, x: string)
    ensures CountOf(a + b, x) == CountOf(a, x) + CountOf(b, x)
  {
    if a == [] {
      assert a + b == b;
    } else {
      assert (a + b)[1..] == a[1..] + b;
      CountOfConcat(a[1..], b, x);
    }
  }

  lemma {:induction false} CountOfAbsent(a: seq<string>, x: string)
    requires forall i :: 0 <= i < |a| ==> a[i] != x
    ensures CountOf(a, x) == 0
  {
    if a != [] {
      CountOfAbsent(a[1..], x);
    }
  }

  lemma {:induction false} DelimitedCount(parts: seq<seq<string>>, boundary: string)
    requires forall k :: 0 <= k < |parts| ==> NoDelimiterLine(parts[k], boundary)
    ensures CountOf(Delimited(parts, boundary), Delimiter(boundary)) == |parts|
    ensures CountOf(Delimited(parts, boundary), CloseDelimiter(boundary)) == 0
  {
    assert |Delimiter(boundary)| != |CloseDelimiter(boundary)|;
    if parts != [] {
      var d := [Delimiter(boundary)];
      assert Delimited(parts, boundary) == d + (parts[0] + Delimited(parts[1..], boundary));
      CountOfConcat(d, parts[0] + Delimited(parts[1..], boundary), Delimiter(boundary));
      CountOfConcat(d, parts[0] + Delimited(parts[1..], boundary), CloseDelimiter(boundary));
      CountOfConcat(parts[0], Delimited(parts[1..], boundary), Delimiter(boundary));
      CountOfConcat(parts[0], Delimited(parts[1..], boundary), CloseDelimiter(boundary));
      CountOfAbsent(parts[0], Delimiter(boundary));
      CountOfAbsent(parts[0], CloseDelimiter(boundary));
      DelimitedCount(parts[1..], boundary);
    }
  }

  /** A framed body of n parts has exactly n delimiter lines and one close delimiter line. */
  lemma FrameCount(parts: seq<seq<string>>, boundary: string)
    requires forall k :: 0 <= k < |parts| ==> NoDelimiterLine(parts[k], boundary)
    ensures CountOf(Frame(parts, boundary), Delimiter(boundary)) == |parts|
    ensures CountOf(Frame(parts, boundary), CloseDelimiter(boundary)) == 1
  {
    DelimitedCount(parts, boundary);
    var c := [CloseDelimiter(boundary)];
    CountOfConcat(Delimited(parts, boundary), c, Delimiter(boundary));
    CountOfConcat(Delimited(parts, boundary), c, CloseDelimiter(boundary));
    assert |Delimiter(boundary)| != |CloseDelimiter(boundary)|;
  }

  // ---------------------------------------------------------------------------------------
  // The parts of the multipart body

  /** A line that is empty or does not start with '-' cannot be taken for a delimiter. */
  lemma NotADelimiter(line: string, boundary: string)
    requires |line| == 0 || line[0] != '-'
    ensures line != Delimiter(boundary) && line != CloseDelimiter(boundary)
  {
    assert Delimiter(boundary)[0] == '-' && CloseDelimiter(boundary)[0] == '-';
  }

  lemma Base64LineNotADelimiter(content: seq<Byte>, boundary: string)
    ensures Base64.Encode(content) != Delimiter(boundary) && Base64.Encode(content) != CloseDelimiter(boundary)
  {
    Base64.EncodeHasNoDashOrCR(content);
    var e := Base64.Encode(content);
    assert |e| > 0 ==> e[0] in e;
    NotADelimiter(e, boundary);
  }

  lemma HeaderLineNotADelimiter(name: string, value: string, boundary: string)
    requires |name| > 0 && name[0] != '-'
    ensures HeaderLine(name, value) != Delimiter(boundary) && HeaderLine(name, value) != CloseDelimiter(boundary)
  {
    assert HeaderLine(name, value)[0] == name[0];
    NotADelimiter(HeaderLine(name, value), boundary);
  }

  lemma BodyPartNoDelimiterLine(req: ComposeRequest, boundary: string)
    ensures NoDelimiterLine(BodyPart(req), boundary)
  {
    HeaderLineNotADelimiter("Content-Type", (if req.html then "text/html" else "text/plain") + "; charset=utf-8", boundary);
    HeaderLineNotADelimiter("Content-Transfer-Encoding", "base64", boundary);
    NotADelimiter("", boundary);
    Base64LineNotADelimiter(Utf8.Encode(req.body), boundary);
  }

  lemma AttachmentPartNoDelimiterLine(path: string, content: seq<Byte>, boundary: string)
    ensures NoDelimiterLine(AttachmentPart(path, content), boundary)
  {
    var part := AttachmentPart(path, content);
    HeaderLineNotADelimiter("Content-Type", "application/octet-stream", boundary);
    HeaderLineNotADelimiter("Content-Disposition", "attachment; filename=\"" + Basename(path) + "\"", boundary);
    HeaderLineNotADelimiter("Content-Transfer-Encoding", "base64", boundary);
    NotADelimiter("", boundary);
    Base64LineNotADelimiter(content, boundary);
    forall i | 0 <= i < |part| ensures part[i] != Delimiter(boundary) && part[i] != CloseDelimiter(boundary) {
      if i == 0 {
        assert part[0] == OctetStream;
      } else if i == 1 {
        assert part[1] == DispositionLine(Basename(path));
      } else if i == 2 {
        assert part[2] == TransferEncoding;
      } else if i == 3 {
        assert part[3] == "";
      } else {
        assert part[4] == Base64.Encode(content);
      }
    }
  }

  lemma PartsHaveNoDelimiterLine(req: ComposeRequest, paths: seq<string>, files: map<string, seq<Byte>>, boundary: string)
    ensures var parts := [BodyPart(req)] + AttachmentParts(paths, files);
      forall k :: 0 <= k < |parts| ==> NoDelimiterLine(parts[k], boundary)
  {
    var rest := AttachmentParts(paths, files);
    BodyPartNoDelimiterLine(req, boundary);
    AttachmentPartsNoDelimiterLine(rest, paths, files, boundary);
    ConsNoDelimiterLine(BodyPart(req), rest, boundary);
  }

  lemma AttachmentPartsNoDelimiterLine(parts: seq<seq<string>>, paths: seq<string>, files: map<string, seq<Byte>>, boundary: string)
    requires parts == AttachmentParts(paths, files)
    ensures forall k :: 0 <= k < |parts| ==> NoDelimiterLine(parts[k], boundary)
  {
    var readable := Readable(paths, files);
    AttachmentPartsInOrder(paths, files);
    forall k | 0 <= k < |parts| ensures NoDelimiterLine(parts[k], boundary) {
      AttachmentPartNoDelimiterLine(readable[k], files[readable[k]], boundary);
    }
  }

  lemma ConsNoDelimiterLine(first: seq<string>, rest: seq<seq<string>>, boundary: string)
    requires NoDelimiterLine(first, boundary)
    requires forall k :: 0 <= k < |rest| ==> NoDelimiterLine(rest[k], boundary)
    ensures var parts := [first] + rest;
      forall k :: 0 <= k < |parts| ==> NoDelimiterLine(parts[k], boundary)
  {
    var parts := [first] + rest;
    forall k | 0 <= k < |parts| ensures NoDelimiterLine(parts[k], boundary) {
      if k > 0 {
        assert parts[k] == rest[k - 1];
      }
    }
  }

  /**
   * The attachment parts are those of the readable paths, in input order: the part of the
   * i-th readable path names the basename of that path and carries its content in base 64.
   */
  lemma {:induction false} AttachmentPartsInOrder(paths: seq<string>, files: map<string, seq<Byte>>)
    ensures var readable := Readable(paths, files);
      var parts := AttachmentParts(paths, files);
      |parts| == |readable| <= |paths|
      && forall i :: 0 <= i < |readable| ==>
           readable[i] in files && parts[i] == AttachmentPart(readable[i], files[readable[i]])
  {
    if paths != [] {
      var r := Readable(paths[1..], files);
      var ps := AttachmentParts(paths[1..], files);
      AttachmentPartsInOrder(paths[1..], files);
      if paths[0] in files {
        PartsInOrderCons(paths[0], files, r, ps);
      } else {
        assert Readable(paths, files) == r && AttachmentParts(paths, files) == ps;
      }
    }
  }

  lemma PartsInOrderCons(p: string, files: map<string, seq<Byte>>, r: seq<string>, ps: seq<seq<string>>)
    requires p in files && |ps| == |r|
    requires forall i :: 0 <= i < |r| ==> r[i] in files && ps[i] == AttachmentPart(r[i], files[r[i]])
    ensures var r' := [p] + r; var ps' := [AttachmentPart(p, files[p])] + ps;
      |ps'| == |r'| && forall i :: 0 <= i < |r'| ==> r'[i] in files && ps'[i] == AttachmentPart(r'[i], files[r'[i]])
  {
    ConsPairs(p, AttachmentPart(p, files[p]), r, ps, files, AttachmentPart);
  }

  /** Pairing a path with its part extends to one more path in front. */
  lemma ConsPairs(p: string, part: seq<string>, r: seq<string>, ps: seq<seq<string>>,
                  files: map<string, seq<Byte>>, f: (string, seq<Byte>) -> seq<string>)
    requires p in files && part == f(p, files[p]) && |ps| == |r|
    requires forall i :: 0 <= i < |r| ==> r[i] in files && ps[i] == f(r[i], files[r[i]])
    ensures var r' := [p] + r; var ps' := [part] + ps;
      |ps'| == |r'| && forall i :: 0 <= i < |r'| ==> r'[i] in files && ps'[i] == f(r'[i], files[r'[i]])
  {
    var r' := [p] + r;
    var ps' := [part] + ps;
    forall i | 0 <= i < |r'| ensures r'[i] in files && ps'[i] == f(r'[i], files[r'[i]]) {
      if i > 0 {
        assert r'[i] == r[i - 1] && ps'[i] == ps[i - 1];
      }
    }
  }

  /** An attachment that cannot be read is skipped: the parts are those of the other paths, unchanged. */
  lemma UnreadableSkipped(xs: seq<string>, p: string, ys: seq<string>, files: map<string, seq<Byte>>)
    requires p !in files
    ensures AttachmentParts(xs + [p] + ys, files) == AttachmentParts(xs + ys, files)
  {
    AttachmentPartsConcat(xs + [p], ys, files);
    AttachmentPartsConcat(xs, [p], files);
    AttachmentPartsConcat(xs, ys, files);
    assert AttachmentParts([p], files) == [];
  }

  /**
   * A message with attachments: after the header block and an empty line, the body reads as
   * 1 + K parts, K being the number of readable attachments; the text part comes first and
   * the attachment parts follow in input order. It has K + 1 delimiter lines and one close
   * delimiter line.
   */
  lemma MultipartStructure(req: ComposeRequest, files: map<string, seq<Byte>>, boundary: string)
    requires IsMultipart(req)
    ensures var lines := MessageLines(req, files, boundary);
      var h := |HeaderBlock(req, boundary)|;
      var body := lines[h + 1..];
      var k := |Readable(req.attachments.value, files)|;
      && lines[h] == ""
      && ParseMultipart(body, boundary) == Some([BodyPart(req)] + AttachmentParts(req.attachments.value, files))
      && |AttachmentParts(req.attachments.value, files)| == k
      && CountOf(body, Delimiter(boundary)) == k + 1
      && CountOf(body, CloseDelimiter(boundary)) == 1
  {
    var parts := [BodyPart(req)] + AttachmentParts(req.attachments.value, files);
    var lines := MessageLines(req, files, boundary);
    var h := |HeaderBlock(req, boundary)|;
    assert lines[h + 1..] == Frame(parts, boundary);
    PartsHaveNoDelimiterLine(req, req.attachments.value, files, boundary);
    AttachmentPartsInOrder(req.attachments.value, files);
    ParseFrame(parts, boundary);
    FrameCount(parts, boundary);
  }

  // ---------------------------------------------------------------------------------------
  // The message read back from the wire

  predicate AllNoCR(lines: seq<string>) {
    forall i :: 0 <= i < |lines| ==> NoCR(lines[i])
  }

  /** No address, subject, boundary or attachment path carries a CR of its own. */
  predicate LineSafe(req: ComposeRequest, boundary: string) {
    && NoCR(req.subject) && NoCR(boundary)
    && (forall a :: a in AsList(req.to) ==> NoCR(a))
    && (forall a :: a in OptionalList(req.cc) ==> NoCR(a))
    && (forall a :: a in OptionalList(req.bcc) ==> NoCR(a))
    && (forall p :: p in req.attachments.GetOr([]) ==> NoCR(p))
  }

  lemma AddressListNoCR(xs: seq<string>)
    requires forall a :: a in xs ==> NoCR(a)
    ensures NoCR(Join(xs, ", "))
  {
    forall i | 0 <= i < |xs| ensures NoCR(xs[i]) {
      assert xs[i] in xs;
    }
    JoinKeepsNoCR(xs, ", ");
  }

  lemma AllNoCRConcat(a: seq<string>, b: seq<string>)
    requires AllNoCR(a) && AllNoCR(b)
    ensures AllNoCR(a + b)
  {
    forall i | 0 <= i < |a + b| ensures NoCR((a + b)[i]) {
      if i >= |a| {
        assert (a + b)[i] == b[i - |a|];
      }
    }
  }

  lemma AddressHeadersNoCR(req: ComposeRequest, boundary: string)
    requires LineSafe(req, boundary)
    ensures AllNoCR(AddressHeaders(req))
  {
    var cc := OptionalList(req.cc);
    var bcc := OptionalList(req.bcc);
    AddressListNoCR(AsList(req.to));
    AddressListNoCR(cc);
    AddressListNoCR(bcc);
    HeaderLineNoCR("To", Join(AsList(req.to), ", "));
    HeaderLineNoCR("Subject", req.subject);
    HeaderLineNoCR("Cc", Join(cc, ", "));
    HeaderLineNoCR("Bcc", Join(bcc, ", "));
    var head := [HeaderLine("To", Join(AsList(req.to), ", ")), HeaderLine("Subject", req.subject)];
    var ccLines := if |cc| > 0 then [HeaderLine("Cc", Join(cc, ", "))] else [];
    var bccLines := if |bcc| > 0 then [HeaderLine("Bcc", Join(bcc, ", "))] else [];
    AllNoCRConcat(head, ccLines);
    AllNoCRConcat(head + ccLines, bccLines);
  }

  lemma ContentHeadersNoCR(boundary: string, html: bool)
    requires NoCR(boundary)
    ensures AllNoCR([MimeVersion, MultipartContentType(boundary)])
    ensures AllNoCR([MimeVersion, BodyContentType(html), TransferEncoding])
  {
    FixedLinesNoCR();
    HeaderLineNoCR("Content-Type", "multipart/mixed; boundary=\"" + boundary + "\"");
  }

  lemma HeaderBlockNoCR(req: ComposeRequest, boundary: string)
    requires LineSafe(req, boundary)
    ensures AllNoCR(HeaderBlock(req, boundary))
  {
    AddressHeadersNoCR(req, boundary);
    ContentHeadersNoCR(boundary, req.html);
    if IsMultipart(req) {
      AllNoCRConcat(AddressHeaders(req), [MimeVersion, MultipartContentType(boundary)]);
    } else {
      AllNoCRConcat(AddressHeaders(req), [MimeVersion, BodyContentType(req.html), TransferEncoding]);
    }
  }


  lemma HeaderLineNoCR(name: string, value: string)
    requires NoCR(name) && NoCR(value)
    ensures NoCR(HeaderLine(name, value))
  {
  }

  lemma MimeVersionNoCR()
    ensures NoCR(MimeVersion)
  {
    HeaderLineNoCR("MIME-Version", "1.0");
  }

  lemma TransferEncodingNoCR()
    ensures NoCR(TransferEncoding)
  {
    HeaderLineNoCR("Content-Transfer-Encoding", "base64");
  }

  lemma OctetStreamNoCR()
    ensures NoCR(OctetStream)
  {
    HeaderLineNoCR("Content-Type", "application/octet-stream");
  }

  lemma BodyContentTypeNoCR(html: bool)
    ensures NoCR(BodyContentType(html))
  {
    HeaderLineNoCR("Content-Type", (if html then "text/html" else "text/plain") + "; charset=utf-8");
  }

  lemma FixedLinesNoCR()
    ensures NoCR(MimeVersion) && NoCR(TransferEncoding) && NoCR(OctetStream)
    ensures NoCR(BodyContentType(true)) && NoCR(BodyContentType(false))
  {
    MimeVersionNoCR();
    TransferEncodingNoCR();
    OctetStreamNoCR();
    BodyContentTypeNoCR(true);
    BodyContentTypeNoCR(false);
  }


  lemma AttachmentPartNoCR(path: string, content: seq<Byte>)
    requires NoCR(path)
    ensures AllNoCR(AttachmentPart(path, content))
  {
    FixedLinesNoCR();
    Base64.EncodeHasNoDashOrCR(content);
    var name := Basename(path);
    assert NoCR(name);
    HeaderLineNoCR("Content-Disposition", "attachment; filename=\"" + name + "\"");
  }

  lemma BodyPartNoCR(req: ComposeRequest)
    ensures AllNoCR(BodyPart(req))
  {
    FixedLinesNoCR();
    Base64.EncodeHasNoDashOrCR(Utf8.Encode(req.body));
  }

  lemma {:induction false} AttachmentPartsNoCR(paths: seq<string>, files: map<string, seq<Byte>>)
    requires forall p :: p in paths ==> NoCR(p)
    ensures forall k :: 0 <= k < |AttachmentParts(paths, files)| ==> AllNoCR(AttachmentParts(paths, files)[k])
  {
    if paths != [] {
      var p := paths[0];
      assert p in paths;
      if p in files {
        AttachmentPartNoCR(p, files[p]);
      }
      assert forall q :: q in paths[1..] ==> q in paths;
      AttachmentPartsNoCR(paths[1..], files);
    }
  }

  lemma {:induction false} DelimitedNoCR(parts: seq<seq<string>>, boundary: string)
    requires NoCR(boundary)
    requires forall k :: 0 <= k < |parts| ==> AllNoCR(parts[k])
    ensures AllNoCR(Delimited(parts, boundary))
  {
    if parts != [] {
      DelimitedNoCR(parts[1..], boundary);
      var d := [Delimiter(boundary)];
      var rest := Delimited(parts[1..], boundary);
      assert Delimited(parts, boundary) == d + parts[0] + rest;
      assert AllNoCR(d) && AllNoCR(parts[0]);
      forall i | 0 <= i < |d + parts[0] + rest| ensures NoCR((d + parts[0] + rest)[i]) {
        if i >= |d| + |parts[0]| {
          assert (d + parts[0] + rest)[i] == rest[i - |d| - |parts[0]|];
        }
      }
    }
  }

  lemma MessageLinesNoCR(req: ComposeRequest, files: map<string, seq<Byte>>, boundary: string)
    requires LineSafe(req, boundary)
    ensures AllNoCR(MessageLines(req, files, boundary))
  {
    HeaderBlockNoCR(req, boundary);
    var body := BodyLines(req, files, boundary);
    if IsMultipart(req) {
      var attachments := AttachmentParts(req.attachments.value, files);
      var parts := [BodyPart(req)] + attachments;
      BodyPartNoCR(req);
      AttachmentPartsNoCR(req.attachments.value, files);
      assert forall k :: 0 <= k < |parts| ==> AllNoCR(parts[k]) by {
        forall k | 0 <= k < |parts| ensures AllNoCR(parts[k]) {
          if k > 0 {
            assert parts[k] == attachments[k - 1];
          }
        }
      }
      DelimitedNoCR(parts, boundary);
      assert body == Delimited(parts, boundary) + [CloseDelimiter(boundary)];
    } else {
      Base64.EncodeHasNoDashOrCR(Utf8.Encode(req.body));
    }
    assert AllNoCR(body);
    var lines := MessageLines(req, files, boundary);
    var head := HeaderBlock(req, boundary) + [""];
    assert lines == head + body;
    forall i | 0 <= i < |lines| ensures NoCR(lines[i]) {
      if i >= |head| {
        assert lines[i] == body[i - |head|];
      }
    }
  }

  /**
   * What is sent decodes back: the wire form uses only base64url characters without padding,
   * reverses to the base64 text, and that decodes to the UTF-8 octets of the message text.
   */
  lemma WireRoundTrip(req: ComposeRequest, files: map<string, seq<Byte>>, boundary: string)
    ensures var raw := EncodedMessage(req, files, boundary);
      && (forall i :: 0 <= i < |raw| ==> raw[i] != '+' && raw[i] != '/' && raw[i] != '=')
      && Base64.DecodeUrl(raw) == Some(Utf8.Encode(MessageText(req, files, boundary)))
      && Utf8.Decode(Utf8.Encode(MessageText(req, files, boundary))) == Some(MessageText(req, files, boundary))
  {
    Base64.UrlRoundTrip(Utf8.Encode(MessageText(req, files, boundary)));
    Utf8.DecodeEncode(MessageText(req, files, boundary));
  }

  /**
   * A reader that splits the message text at CRLF recovers its lines exactly, provided no
   * address, subject, boundary or attachment path holds a CR.
   */
  lemma MessageLinesRecovered(req: ComposeRequest, files: map<string, seq<Byte>>, boundary: string)
    requires LineSafe(req, boundary)
    ensures SplitLines(MessageText(req, files, boundary)) == MessageLines(req, files, boundary)
  {
    MessageLinesNoCR(req, files, boundary);
    SplitJoin(MessageLines(req, files, boundary));
  }

  /**
   * The text part carries the body: its last line is the base 64 of the body's UTF-8 octets,
   * which decode back to the body. Without attachments that line ends the message.
   */
  lemma BodyRecovered(req: ComposeRequest, files: map<string, seq<Byte>>, boundary: string)
    ensures BodyPart(req)[3] == BodyBase64(req)
    ensures Base64.Decode(BodyBase64(req)) == Some(Utf8.Encode(req.body))
    ensures Utf8.Decode(Utf8.Encode(req.body)) == Some(req.body)
    ensures !IsMultipart(req) ==>
      MessageLines(req, files, boundary) == HeaderBlock(req, boundary) + ["", BodyBase64(req)]
  {
    Base64.DecodeEncode(Utf8.Encode(req.body));
    Utf8.DecodeEncode(req.body);
  }
}
