/**
 * The inbound side of the adapter: turning a Gmail API message resource into the flat record
 * the tools return (`formatEmailData` in src/gmail-service.js).
 *
 * A JSON field that may be absent is an `Option`, except where absence and an empty value are
 * handled alike by the code: an absent `parts` or `headers` array is the empty sequence, an
 * absent `filename` is "", and an absent `body` is a body with no fields.
 */
module MessageDecoder {
  import opened Wrappers
  import opened Text

  datatype Header = Header(name: string, value: Option<string>)

  datatype PartBody = PartBody(data: Option<string>, size: Option<int>, attachmentId: Option<string>)

  /** A node of the MIME part tree of a message. */
  datatype Part = Part(
    mimeType: Option<string>,
    filename: string,
    headers: seq<Header>,
    body: PartBody,
    parts: seq<Part>)

  datatype Message = Message(
    id: Option<string>,
    threadId: Option<string>,
    labelIds: Option<seq<string>>,
    snippet: Option<string>,
    payload: Option<Part>,
    sizeEstimate: Option<int>,
    internalDate: Option<string>)

  datatype AttachmentInfo = AttachmentInfo(
    filename: string,
    mimeType: Option<string>,
    size: int,
    attachmentId: Option<string>)

  datatype EmailRecord = EmailRecord(
    id: Option<string>,
    threadId: Option<string>,
    labelIds: seq<string>,
    snippet: string,
    from: string,
    to: string,
    cc: string,
    bcc: string,
    subject: string,
    date: string,
    body: string,
    attachments: seq<AttachmentInfo>,
    sizeEstimate: Option<int>,
    internalDate: Option<string>)

  // ---------------------------------------------------------------------------------------
  // getHeader

  predicate NameMatches(h: Header, name: string) {
    Lower(h.name) == Lower(name)
  }

  /** `i` is the first header whose name matches `name` without regard to case. */
  predicate FirstMatch(hs: seq<Header>, name: string, i: int) {
    0 <= i < |hs| && NameMatches(hs[i], name) && forall j :: 0 <= j < i ==> !NameMatches(hs[j], name)
  }

  /** `headers.find(...)`: the index of the first header named `name`, ignoring case. */
  function FindHeader(hs: seq<Header>, name: string): (r: Option<nat>)
    ensures r.Some? ==> FirstMatch(hs, name, r.value)
    ensures r.None? ==> forall j :: 0 <= j < |hs| ==> !NameMatches(hs[j], name)
  {
    if hs == [] then None
    else if NameMatches(hs[0], name) then Some(0)
    else
      match FindHeader(hs[1..], name)
      case Some(k) => Some(k + 1)
      case None => None
  }

  /**
   * The value of the first header named `name` (ignoring case), or "" when there is none or
   * when that first header has no value; later headers of the same name are not consulted.
   */
  function GetHeader(hs: seq<Header>, name: string): (v: string)
    ensures (forall j :: 0 <= j < |hs| ==> !NameMatches(hs[j], name)) ==> v == ""
    ensures forall i :: FirstMatch(hs, name, i) ==> v == hs[i].value.GetOr("")
  {
    match FindHeader(hs, name)
    case Some(i) => hs[i].value.GetOr("")
    case None => ""
  }

  /** Asking for a header under any spelling of its name that differs only in case gives the same value. */
  lemma GetHeaderIgnoresCase(hs: seq<Header>, a: string, b: string)
    requires Lower(a) == Lower(b)
    ensures GetHeader(hs, a) == GetHeader(hs, b)
  {
    match FindHeader(hs, a)
    case Some(i) =>
      assert FirstMatch(hs, b, i);
    case None =>
  }

  /** A header placed in front of the others shadows every later header of the same name. */
  lemma FirstHeaderWins(h: Header, hs: seq<Header>, name: string)
    requires NameMatches(h, name)
    ensures GetHeader([h] + hs, name) == h.value.GetOr("")
  {
    assert FirstMatch([h] + hs, name, 0);
  }

  /** A header whose name does not match can be added anywhere without changing the lookup. */
  lemma {:induction false} OtherHeaderIgnored(xs: seq<Header>, h: Header, ys: seq<Header>, name: string)
    requires !NameMatches(h, name)
    ensures GetHeader(xs + [h] + ys, name) == GetHeader(xs + ys, name)
  {
    var long, short := xs + [h] + ys, xs + ys;
    match FindHeader(short, name)
    case Some(i) =>
      var k := if i < |xs| then i else i + 1;
      assert long[k] == short[i];
      forall j | 0 <= j < k ensures !NameMatches(long[j], name) {
        if j < |xs| {
          assert long[j] == short[j];
        } else if j > |xs| {
          assert long[j] == short[j - 1];
        }
      }
      assert FirstMatch(long, name, k);
    case None =>
      forall j | 0 <= j < |long| ensures !NameMatches(long[j], name) {
        if j < |xs| {
          assert long[j] == short[j];
        } else if j > |xs| {
          assert long[j] == short[j - 1];
        }
      }
  }

  // ---------------------------------------------------------------------------------------
  // extractBody

  /** `body && body.data`: the body carries non-empty inline data. */
  predicate HasData(b: PartBody) {
    b.data.Some? && b.data.value != ""
  }

  predicate IsTextPart(p: Part) {
    (p.mimeType == Some("text/plain") || p.mimeType == Some("text/html")) && HasData(p.body)
  }

  predicate FirstTextPart(parts: seq<Part>, i: int) {
    0 <= i < |parts| && IsTextPart(parts[i]) && forall j :: 0 <= j < i ==> !IsTextPart(parts[j])
  }

  function FindTextPart(parts: seq<Part>): (r: Option<nat>)
    ensures r.Some? ==> FirstTextPart(parts, r.value)
    ensures r.None? ==> forall j :: 0 <= j < |parts| ==> !IsTextPart(parts[j])
  {
    if parts == [] then None
    else if IsTextPart(parts[0]) then Some(0)
    else
      match FindTextPart(parts[1..])
      case Some(k) => Some(k + 1)
      case None => None
  }

  /**
   * The body text of a payload: its own inline data when it has some, otherwise the data of
   * its first direct child that is text/plain or text/html and has data, otherwise "".
   * `decode` is the conversion of Gmail's base64 data to text.
   */
  function ExtractBody(payload: Part, decode: string -> string): (body: string)
    ensures HasData(payload.body) ==> body == decode(payload.body.data.value)
    ensures !HasData(payload.body) ==>
      forall i :: FirstTextPart(payload.parts, i) ==> body == decode(payload.parts[i].body.data.value)
    ensures !HasData(payload.body) && (forall j :: 0 <= j < |payload.parts| ==> !IsTextPart(payload.parts[j]))
      ==> body == ""
  {
    if HasData(payload.body) then decode(payload.body.data.value)
    else
      match FindTextPart(payload.parts)
      case Some(i) => decode(payload.parts[i].body.data.value)
      case None => ""
  }

  const NoBody: PartBody := PartBody(None, None, None)

  /**
   * The search for a body goes one level deep only: a text part nested inside a child
   * container (a multipart/alternative inside a multipart/mixed, say) is not found.
   */
  lemma NestedTextNotFound(text: Part, decode: string -> string)
    requires IsTextPart(text)
    ensures var inner := Part(Some("multipart/alternative"), "", [], NoBody, [text]);
      ExtractBody(Part(Some("multipart/mixed"), "", [], NoBody, [inner]), decode) == ""
  {
    var inner := Part(Some("multipart/alternative"), "", [], NoBody, [text]);
    assert !IsTextPart(inner);
  }

  /** Inline data on the payload wins over anything in its parts. */
  lemma TopLevelDataWins(payload: Part, parts: seq<Part>, decode: string -> string)
    requires HasData(payload.body)
    ensures ExtractBody(payload.(parts := parts), decode) == ExtractBody(payload, decode)
  {
  }

  // ---------------------------------------------------------------------------------------
  // extractAttachments

  /** `part.filename && part.filename.length > 0` */
  predicate Named(p: Part) {
    p.filename != ""
  }

  /** The entry pushed for a named part; `size` falls back to 0 when absent or 0. */
  function InfoOf(p: Part): AttachmentInfo {
    AttachmentInfo(p.filename, p.mimeType, p.body.size.GetOr(0), p.body.attachmentId)
  }

  function Own(p: Part): seq<AttachmentInfo> {
    if Named(p) then [InfoOf(p)] else []
  }

  /** The entries contributed by the children of `p` from index `i` on, in pre-order. */
  function AttachmentsFrom(p: Part, i: nat): seq<AttachmentInfo>
    requires i <= |p.parts|
    decreases p, |p.parts| - i
  {
    if i == |p.parts| then []
    else Own(p.parts[i]) + AttachmentsFrom(p.parts[i], 0) + AttachmentsFrom(p, i + 1)
  }

  /** The attachments of a payload: its named descendants (not the payload itself), in pre-order. */
  function AttachmentsOf(p: Part): seq<AttachmentInfo> {
    AttachmentsFrom(p, 0)
  }

  /**
   * `extractAttachments`: walks the children of `payload` in order, pushing an entry for every
   * named child onto the list being collected and then descending into the child's own parts.
   */
  method ExtractAttachments(payload: Part, collected: seq<AttachmentInfo>) returns (out: seq<AttachmentInfo>)
    ensures out == collected + AttachmentsOf(payload)
    decreases payload
  {
    out := collected;
    for i := 0 to |payload.parts|
      invariant out + AttachmentsFrom(payload, i) == collected + AttachmentsOf(payload)
    {
      var part := payload.parts[i];
      ghost var before := out;
      AttachmentsStep(payload, i);
      if Named(part) {
        out := out + [InfoOf(part)];
      }
      assert out == before + Own(part);
      if part.parts != [] {
        out := ExtractAttachments(part, out);
      }
      assert out == before + Own(part) + AttachmentsOf(part);
      AppendThree(before, Own(part), AttachmentsOf(part), AttachmentsFrom(payload, i + 1));
      assert out + AttachmentsFrom(payload, i + 1) == before + AttachmentsFrom(payload, i);
    }
  }

  lemma AttachmentsStep(p: Part, i: nat)
    requires i < |p.parts|
    ensures AttachmentsFrom(p, i) == Own(p.parts[i]) + AttachmentsOf(p.parts[i]) + AttachmentsFrom(p, i + 1)
    ensures p.parts[i].parts == [] ==> AttachmentsOf(p.parts[i]) == []
  {
  }

  lemma AppendThree<T>(w: seq<T>, x: seq<T>, y: seq<T>, z: seq<T>)
    ensures w + x + y + z == w + (x + y + z)
  {
  }

  /** `d` lies strictly below `p` in the part tree. */
  ghost predicate Below(d: Part, p: Part)
    decreases p
  {
    exists k :: 0 <= k < |p.parts| && (d == p.parts[k] || Below(d, p.parts[k]))
  }

  /** `d` is one of the children of `p` from index `i` on, or lies below one of them. */
  ghost predicate BelowFrom(d: Part, p: Part, i: nat) {
    exists k :: i <= k < |p.parts| && (d == p.parts[k] || Below(d, p.parts[k]))
  }

  lemma {:induction false} AttachmentsFromMembers(p: Part, i: nat, a: AttachmentInfo)
    requires i <= |p.parts|
    ensures a in AttachmentsFrom(p, i) <==> exists d :: BelowFrom(d, p, i) && Named(d) && a == InfoOf(d)
    decreases p, |p.parts| - i
  {
    if i < |p.parts| {
      var c := p.parts[i];
      AttachmentsFromMembers(c, 0, a);
      AttachmentsFromMembers(p, i + 1, a);
      if a in AttachmentsFrom(p, i) {
        if a in Own(c) {
          assert BelowFrom(c, p, i);
        } else if a in AttachmentsFrom(c, 0) {
          var d :| BelowFrom(d, c, 0) && Named(d) && a == InfoOf(d);
          assert Below(d, c);
          assert BelowFrom(d, p, i);
        } else {
          assert a in AttachmentsFrom(p, i + 1);
          var d :| BelowFrom(d, p, i + 1) && Named(d) && a == InfoOf(d);
          assert BelowFrom(d, p, i);
        }
      } else {
        forall d | BelowFrom(d, p, i) && Named(d) ensures a != InfoOf(d) {
          var k :| i <= k < |p.parts| && (d == p.parts[k] || Below(d, p.parts[k]));
          if k == i && d == c {
            assert InfoOf(d) in Own(c);
          } else if k == i {
            assert BelowFrom(d, c, 0);
          } else {
            assert BelowFrom(d, p, i + 1);
          }
        }
      }
    }
  }

  /**
   * An entry is in the attachments of a payload exactly when it describes a named part
   * somewhere below the payload, at any depth.
   */
  lemma AttachmentsAreNamedDescendants(p: Part, a: AttachmentInfo)
    ensures a in AttachmentsOf(p) <==> exists d :: Below(d, p) && Named(d) && a == InfoOf(d)
  {
    AttachmentsFromMembers(p, 0, a);
    forall d ensures BelowFrom(d, p, 0) <==> Below(d, p) {
    }
  }

  /** The named children of a payload, in order. */
  function NamedChildren(parts: seq<Part>): seq<AttachmentInfo> {
    if parts == [] then [] else Own(parts[0]) + NamedChildren(parts[1..])
  }

  lemma {:induction false} FlatAttachmentsFrom(p: Part, i: nat)
    requires i <= |p.parts|
    requires forall k :: 0 <= k < |p.parts| ==> p.parts[k].parts == []
    ensures AttachmentsFrom(p, i) == NamedChildren(p.parts[i..])
    decreases |p.parts| - i
  {
    if i < |p.parts| {
      FlatAttachmentsFrom(p, i + 1);
      assert p.parts[i..][1..] == p.parts[i + 1..];
      assert AttachmentsFrom(p.parts[i], 0) == [];
    } else {
      assert p.parts[i..] == [];
    }
  }

  /**
   * When no child has parts of its own the attachments are the named children in input order,
   * one entry each: nothing is reordered, repeated or dropped.
   */
  lemma FlatAttachments(p: Part)
    requires forall k :: 0 <= k < |p.parts| ==> p.parts[k].parts == []
    ensures AttachmentsOf(p) == NamedChildren(p.parts)
  {
    FlatAttachmentsFrom(p, 0);
    assert p.parts[0..] == p.parts;
  }

  /**
   * The walk is pre-order: for a named first child `c`, the list starts with the entry of `c`,
   * then holds exactly the named parts below `c`, then exactly those below the later siblings.
   */
  lemma ParentBeforeChildren(c: Part, rest: seq<Part>, p: Part)
    requires p.parts == [c] + rest && Named(c)
    ensures var all := AttachmentsOf(p); var k := 1 + |AttachmentsOf(c)|;
      && k <= |all| && all[0] == InfoOf(c)
      && (forall a :: a in all[1..k] <==> exists d :: Below(d, c) && Named(d) && a == InfoOf(d))
      && (forall a :: a in all[k..] <==> exists d :: BelowFrom(d, p, 1) && Named(d) && a == InfoOf(d))
  {
    var all := AttachmentsOf(p);
    var k := 1 + |AttachmentsOf(c)|;
    assert all == [InfoOf(c)] + AttachmentsOf(c) + AttachmentsFrom(p, 1);
    assert all[1..k] == AttachmentsOf(c) && all[k..] == AttachmentsFrom(p, 1);
    forall a ensures a in all[1..k] <==> exists d :: Below(d, c) && Named(d) && a == InfoOf(d) {
      AttachmentsAreNamedDescendants(c, a);
    }
    forall a ensures a in all[k..] <==> exists d :: BelowFrom(d, p, 1) && Named(d) && a == InfoOf(d) {
      AttachmentsFromMembers(p, 1, a);
    }
  }

  // ---------------------------------------------------------------------------------------
  // formatEmailData

  function HeadersOf(m: Message): seq<Header> {
    if m.payload.Some? then m.payload.value.headers else []
  }

  /**
   * `formatEmailData`: passes the identifiers, size and date through, defaults absent label
   * ids to [] and an absent snippet to "", reads the six address and date headers, and fills
   * the body and attachments only when `includeBody` is set and there is a payload.
   */
  method FormatEmailData(m: Message, includeBody: bool, decode: string -> string) returns (r: EmailRecord)
    ensures r.id == m.id && r.threadId == m.threadId
    ensures r.labelIds == m.labelIds.GetOr([]) && r.snippet == m.snippet.GetOr("")
    ensures r.from == GetHeader(HeadersOf(m), "from") && r.to == GetHeader(HeadersOf(m), "to")
    ensures r.cc == GetHeader(HeadersOf(m), "cc") && r.bcc == GetHeader(HeadersOf(m), "bcc")
    ensures r.subject == GetHeader(HeadersOf(m), "subject") && r.date == GetHeader(HeadersOf(m), "date")
    ensures includeBody && m.payload.Some? ==>
      r.body == ExtractBody(m.payload.value, decode) && r.attachments == AttachmentsOf(m.payload.value)
    ensures !(includeBody && m.payload.Some?) ==> r.body == "" && r.attachments == []
    ensures r.sizeEstimate == m.sizeEstimate && r.internalDate == m.internalDate
  {
    var headers := HeadersOf(m);
    var body := "";
    var attachments: seq<AttachmentInfo> := [];
    if includeBody && m.payload.Some? {
      body := ExtractBody(m.payload.value, decode);
      attachments := ExtractAttachments(m.payload.value, attachments);
    }
    r := EmailRecord(
      m.id, m.threadId, m.labelIds.GetOr([]), m.snippet.GetOr(""),
      GetHeader(headers, "from"), GetHeader(headers, "to"), GetHeader(headers, "cc"),
      GetHeader(headers, "bcc"), GetHeader(headers, "subject"), GetHeader(headers, "date"),
      body, attachments, m.sizeEstimate, m.internalDate);
  }
}
