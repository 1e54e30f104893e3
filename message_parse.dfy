/** Message parsing helpers of the server package: the MIME walk that picks the body
    and collects attachment names, the Date fallbacks, the charset lookup for encoded
    words and the display form of an address list. */
module MessageParse {
  import opened Text
  import opened MailLib

  // ---------------------------------------------------------------------------
  // parseDate

  /** time.RFC1123Z, RFC1123, RFC822Z, RFC822, RFC850 and RFC3339, in the order tried. */
  const DateLayouts: seq<string> := [
    "Mon, 02 Jan 2006 15:04:05 -0700",
    "Mon, 02 Jan 2006 15:04:05 MST",
    "02 Jan 06 15:04 -0700",
    "02 Jan 06 15:04 MST",
    "Monday, 02-Jan-06 15:04:05 MST",
    "2006-01-02T15:04:05Z07:00"
  ]

  /** The time from the first layout that parses s. */
  function FirstLayout(lib: Library, layouts: seq<string>, s: string): Option<Time> {
    if layouts == [] then None
    else
      match lib.timeParse(layouts[0], s)
      case Some(t) => Some(t)
      case None => FirstLayout(lib, layouts[1..], s)
  }

  /** The instant parseDate gives: the zero time for an empty value, net/mail's parse
      when it succeeds, else the first fallback layout that parses, else the zero time. */
  function DateOf(lib: Library, dateStr: string): Time {
    if dateStr == "" then ZeroTime
    else
      match lib.parseDate(dateStr)
      case Some(t) => t
      case None =>
        match FirstLayout(lib, DateLayouts, dateStr)
        case Some(t) => t
        case None => ZeroTime
  }

  lemma FirstLayoutStep(lib: Library, layouts: seq<string>, s: string, i: nat)
    requires i < |layouts|
    ensures lib.timeParse(layouts[i], s).None? ==> FirstLayout(lib, layouts[i..], s) == FirstLayout(lib, layouts[i + 1..], s)
    ensures lib.timeParse(layouts[i], s).Some? ==> FirstLayout(lib, layouts[i..], s) == lib.timeParse(layouts[i], s)
  {
    assert layouts[i..][1..] == layouts[i + 1..];
  }

  /** parseDate */
  method ParseDate(lib: Library, dateStr: string) returns (t: Time)
    ensures t == DateOf(lib, dateStr)
  {
    if dateStr == "" {
      return ZeroTime;
    }
    match lib.parseDate(dateStr) {
      case Some(parsed) => return parsed;
      case None =>
    }
    var layouts := DateLayouts;
    var i := 0;
    while i < |layouts|
      invariant 0 <= i <= |layouts|
      invariant FirstLayout(lib, layouts[i..], dateStr) == FirstLayout(lib, layouts, dateStr)
    {
      FirstLayoutStep(lib, layouts, dateStr, i);
      match lib.timeParse(layouts[i], dateStr) {
        case Some(parsed) => return parsed;
        case None =>
      }
      i := i + 1;
    }
    return ZeroTime;
  }

  /** The first layout wins: a time is found exactly when some layout parses, and it
      is the one from the earliest such layout. */
  lemma {:induction false} FirstLayoutWins(lib: Library, layouts: seq<string>, s: string)
    ensures FirstLayout(lib, layouts, s).Some? <==> exists k :: 0 <= k < |layouts| && lib.timeParse(layouts[k], s).Some?
    ensures FirstLayout(lib, layouts, s).Some? ==>
      exists k :: 0 <= k < |layouts| && FirstLayout(lib, layouts, s) == lib.timeParse(layouts[k], s)
        && forall j :: 0 <= j < k ==> lib.timeParse(layouts[j], s).None?
  {
    if layouts != [] && lib.timeParse(layouts[0], s).None? {
      var rest := layouts[1..];
      FirstLayoutWins(lib, rest, s);
      if exists k :: 0 <= k < |layouts| && lib.timeParse(layouts[k], s).Some? {
        var k :| 0 <= k < |layouts| && lib.timeParse(layouts[k], s).Some?;
        assert rest[k - 1] == layouts[k];
      }
      if FirstLayout(lib, rest, s).Some? {
        var k :| 0 <= k < |rest| && FirstLayout(lib, rest, s) == lib.timeParse(rest[k], s)
          && forall j :: 0 <= j < k ==> lib.timeParse(rest[j], s).None?;
        assert layouts[k + 1] == rest[k];
        forall j | 0 <= j < k + 1 ensures lib.timeParse(layouts[j], s).None? {
          if j > 0 {
            assert layouts[j] == rest[j - 1];
          }
        }
      }
    }
  }

  /** The date is net/mail's whenever that parses; otherwise a fallback's, tried in
      order; and the zero time when the value is empty or nothing parses. */
  lemma DateOfSpec(lib: Library, dateStr: string)
    ensures dateStr == "" ==> DateOf(lib, dateStr) == ZeroTime
    ensures dateStr != "" && lib.parseDate(dateStr).Some? ==> DateOf(lib, dateStr) == lib.parseDate(dateStr).value
    ensures dateStr != "" && lib.parseDate(dateStr).None?
              && (forall k :: 0 <= k < |DateLayouts| ==> lib.timeParse(DateLayouts[k], dateStr).None?)
            ==> DateOf(lib, dateStr) == ZeroTime
    ensures dateStr != "" && lib.parseDate(dateStr).None? && DateOf(lib, dateStr) != ZeroTime ==>
      exists k :: 0 <= k < |DateLayouts| && lib.timeParse(DateLayouts[k], dateStr) == Some(DateOf(lib, dateStr))
        && forall j :: 0 <= j < k ==> lib.timeParse(DateLayouts[j], dateStr).None?
  {
    FirstLayoutWins(lib, DateLayouts, dateStr);
  }

  // ---------------------------------------------------------------------------
  // charsetReader

  /** charsetReader: the decoder for a named charset, looked up in lower case; None
      means the input is read unchanged (no name, or one the index does not know). */
  function CharsetReader(lib: Library, charset: string): Option<Charset> {
    if charset == "" then None else lib.ianaEncoding(ToLower(charset))
  }

  /** The lookup ignores the case of the name. */
  lemma CharsetReaderIgnoresCase(lib: Library, charset: string)
    ensures CharsetReader(lib, charset) == CharsetReader(lib, ToLower(charset))
    ensures charset == "" ==> CharsetReader(lib, charset).None?
  {
    ToLowerIdempotent(charset);
  }

  // ---------------------------------------------------------------------------
  // decodeAddressList

  /** An encoded-word decode that falls back to the raw text on error. */
  function DecodeOr(lib: Library, s: string): string {
    match lib.decodeHeader(s)
    case Some(d) => d
    case None => s
  }

  /** One address as displayed: `name <addr>` with the name decoded, or the bare address. */
  function AddressText(lib: Library, a: Address): string {
    if a.name != "" then DecodeOr(lib, a.name) + " <" + a.address + ">" else a.address
  }

  /** The displayed form of each address, in order. */
  function AddressTexts(lib: Library, addrs: seq<Address>): (r: seq<string>)
    ensures |r| == |addrs|
  {
    if addrs == [] then [] else AddressTexts(lib, addrs[..|addrs| - 1]) + [AddressText(lib, addrs[|addrs| - 1])]
  }

  /** The From value decodeAddressList gives. */
  function DisplayAddresses(lib: Library, header: string): string {
    if header == "" then ""
    else
      match lib.parseAddressList(header)
      case None => DecodeOr(lib, header)
      case Some(addrs) => Join(AddressTexts(lib, addrs), ", ")
  }

  lemma AddressTextsStep(lib: Library, addrs: seq<Address>, i: nat)
    requires i < |addrs|
    ensures AddressTexts(lib, addrs[..i + 1]) == AddressTexts(lib, addrs[..i]) + [AddressText(lib, addrs[i])]
  {
    assert addrs[..i + 1][..i] == addrs[..i];
  }

  /** decodeAddressList */
  method DecodeAddressList(lib: Library, header: string) returns (r: string)
    ensures r == DisplayAddresses(lib, header)
  {
    if header == "" {
      return "";
    }
    var parsed := lib.parseAddressList(header);
    if parsed.None? {
      match lib.decodeHeader(header) {
        case Some(dec) => return dec;
        case None => return header;
      }
    }
    var addrs := parsed.value;
    var parts: seq<string> := [];
    var i := 0;
    while i < |addrs|
      invariant 0 <= i <= |addrs|
      invariant parts == AddressTexts(lib, addrs[..i])
    {
      AddressTextsStep(lib, addrs, i);
      var a := addrs[i];
      var name := a.name;
      if name != "" {
        match lib.decodeHeader(name) {
          case Some(dec) => name := dec;
          case None =>
        }
        parts := parts + [name + " <" + a.address + ">"];
      } else {
        parts := parts + [a.address];
      }
      i := i + 1;
    }
    assert addrs[..|addrs|] == addrs;
    r := Join(parts, ", ");
  }

  /** A parsed list is shown address by address, in order, separated by ", ". */
  lemma {:induction false} AddressListShape(lib: Library, addrs: seq<Address>)
    requires addrs != []
    ensures var n := |addrs| - 1;
      Join(AddressTexts(lib, addrs), ", ")
        == (if n == 0 then "" else Join(AddressTexts(lib, addrs[..n]), ", ") + ", ") + AddressText(lib, addrs[n])
  {
    var n := |addrs| - 1;
    if n > 0 {
      JoinSnoc(AddressTexts(lib, addrs[..n]), AddressText(lib, addrs[n]), ", ");
    }
  }

  // ---------------------------------------------------------------------------
  // parseMessageBody

  /** A MIME entity as the walk sees it: the Content-Type, Content-Disposition and
      Content-Transfer-Encoding values, the raw body (None when reading it fails, as
      for a part cut off before its closing boundary), and, for a multipart entity, the
      parts its reader yields in order. `Unreadable` is a part whose NextPart call
      failed. */
  datatype Entity =
    | Entity(contentType: string, disposition: string, transferEncoding: string,
             body: Option<seq<Byte>>, parts: seq<Entity>)
    | Unreadable

  /** The collected content: the body text, its media type and the attachment names. */
  datatype Content = Content(body: string, bodyType: string, attachments: seq<string>)

  /** The media type and its parameters; an unparsable Content-Type reads as
      text/plain with no parameters. */
  function MediaOf(lib: Library, contentType: string): (r: (string, map<string, string>))
    ensures lib.parseMediaType(contentType).None? ==> r == ("text/plain", map[])
  {
    match lib.parseMediaType(contentType)
    case Some(mt) => (mt.value, mt.params)
    case None => ("text/plain", map[])
  }

  /** The Content-Disposition is "attachment"; then its filename parameter. */
  function AttachmentName(lib: Library, disposition: string): Option<string> {
    match lib.parseMediaType(disposition)
    case Some(mt) => if mt.value == "attachment" then Some(Param(mt.params, "filename")) else None
    case None => None
  }

  /** The body bytes read through the transfer decoding; None is a read error, of the
      raw body or of the decoder. */
  function Transferred(lib: Library, transferEncoding: string, body: Option<seq<Byte>>): (r: Option<seq<Byte>>)
    ensures body.None? ==> r.None?
  {
    match body
    case None => None
    case Some(raw) =>
      var cte := ToLower(TrimSpace(transferEncoding));
      if cte == "base64" then lib.base64(raw)
      else if cte == "quoted-printable" then lib.quotedPrintable(raw)
      else Some(raw)
  }

  /** The body bytes as text in the declared charset (utf-8 when none is declared or
      the name is unknown); the raw bytes when decoding fails. */
  function BodyText(lib: Library, params: map<string, string>, bytes: seq<Byte>): string {
    var charset := if Param(params, "charset") == "" then "utf-8" else Param(params, "charset");
    var encoding := match lib.ianaEncoding(charset) case Some(e) => e case None => Utf8;
    match lib.decodeCharset(encoding, bytes)
    case Some(d) => d
    case None => lib.bytesToString(bytes)
  }

  /** A text media type the body can be taken from. */
  predicate IsText(ctype: string) {
    ctype == "text/plain" || ctype == "text/html"
  }

  /** What processEntity does to the content for entity e. */
  function Walk(lib: Library, e: Entity, st: Content): Content
    decreases e, 1
  {
    match e
    case Unreadable => st
    case Entity(contentType, disposition, transferEncoding, body, parts) =>
      var (ctype, params) := MediaOf(lib, contentType);
      if HasPrefix(ctype, "multipart/") then WalkParts(lib, e, 0, st)
      else
        match AttachmentName(lib, disposition)
        case Some(name) => st.(attachments := st.attachments + [name])
        case None =>
          if st.body == "" && IsText(ctype) then
            match Transferred(lib, transferEncoding, body)
            case None => st
            case Some(bytes) => st.(body := BodyText(lib, params, bytes), bodyType := ctype)
          else st
  }

  /** The parts of a multipart entity from index k on, in order, up to the first part
      that cannot be read. */
  function WalkParts(lib: Library, e: Entity, k: nat, st: Content): Content
    requires e.Entity?
    decreases e, 0, |e.parts| - k
  {
    if k >= |e.parts| || e.parts[k].Unreadable? then st
    else WalkParts(lib, e, k + 1, Walk(lib, e.parts[k], st))
  }

  /** The content being filled in by parseMessageBody. */
  class ContentBuilder {
    var body: string
    var bodyType: string
    var attachments: seq<string>

    /** var content EmailContent; content.Attachments = []string{} */
    constructor ()
      ensures body == "" && bodyType == "" && attachments == []
    {
      body := "";
      bodyType := "";
      attachments := [];
    }

    function Snapshot(): Content
      reads this
    {
      Content(body, bodyType, attachments)
    }

    /** processEntity */
    method ProcessEntity(lib: Library, e: Entity)
      modifies this
      decreases e, 1
      ensures Snapshot() == Walk(lib, e, old(Snapshot()))
    {
      if e.Unreadable? {
        return;
      }
      var ctype, params;
      match lib.parseMediaType(e.contentType) {
        case Some(mt) => ctype, params := mt.value, mt.params;
        case None => ctype, params := "text/plain", map[];
      }
      if HasPrefix(ctype, "multipart/") {
        ProcessParts(lib, e);
        return;
      }
      match lib.parseMediaType(e.disposition) {
        case Some(mt) =>
          if mt.value == "attachment" {
            attachments := attachments + [Param(mt.params, "filename")];
            return;
          }
        case None =>
      }
      ProcessLeaf(lib, e, ctype, params);
    }

    /** The multipart branch of processEntity: each part in turn until the reader
        reports an error or runs out. */
    method ProcessParts(lib: Library, e: Entity)
      requires e.Entity?
      modifies this
      decreases e, 0
      ensures Snapshot() == WalkParts(lib, e, 0, old(Snapshot()))
    {
      var k := 0;
      while k < |e.parts|
        invariant 0 <= k <= |e.parts|
        invariant WalkParts(lib, e, k, Snapshot()) == WalkParts(lib, e, 0, old(Snapshot()))
      {
        if e.parts[k].Unreadable? {
          break;
        }
        ProcessEntity(lib, e.parts[k]);
        k := k + 1;
      }
    }

    /** The leaf branch of processEntity for a part that is not an attachment: the
        first text part that can be read becomes the body. */
    method ProcessLeaf(lib: Library, e: Entity, ctype: string, params: map<string, string>)
      requires e.Entity?
      modifies this
      ensures var st := old(Snapshot());
        Snapshot() ==
          if st.body == "" && IsText(ctype) then
            match Transferred(lib, e.transferEncoding, e.body)
            case None => st
            case Some(bytes) => st.(body := BodyText(lib, params, bytes), bodyType := ctype)
          else st
    {
      var cte := ToLower(TrimSpace(e.transferEncoding));
      var reader: Option<seq<Byte>> := e.body;
      if reader.Some? {
        if cte == "base64" {
          reader := lib.base64(reader.value);
        } else if cte == "quoted-printable" {
          reader := lib.quotedPrintable(reader.value);
        }
      }
      if body == "" && (ctype == "text/plain" || ctype == "text/html") {
        if reader.None? {
          return;
        }
        var bodyBytes := reader.value;
        var charset := Param(params, "charset");
        if charset == "" {
          charset := "utf-8";
        }
        var encoding := Utf8;
        match lib.ianaEncoding(charset) {
          case Some(enc) => encoding := enc;
          case None =>
        }
        match lib.decodeCharset(encoding, bodyBytes) {
          case Some(decoded) => body := decoded;
          case None => body := lib.bytesToString(bodyBytes);
        }
        bodyType := ctype;
      }
    }
  }

  /** parseMessageBody */
  method ParseMessageBody(lib: Library, msg: Entity) returns (content: Content)
    ensures content == Walk(lib, msg, Content("", "", []))
  {
    var builder := new ContentBuilder();
    builder.ProcessEntity(lib, msg);
    content := builder.Snapshot();
  }

  // ---------------------------------------------------------------------------
  // What the walk collects

  /** The attachment names of an entity tree, depth first, up to the first part that
      cannot be read in each multipart entity. */
  function Attachments(lib: Library, e: Entity): seq<string>
    decreases e, 1
  {
    match e
    case Unreadable => []
    case Entity(contentType, disposition, _, _, _) =>
      if HasPrefix(MediaOf(lib, contentType).0, "multipart/") then PartAttachments(lib, e, 0)
      else
        match AttachmentName(lib, disposition)
        case Some(name) => [name]
        case None => []
  }

  function PartAttachments(lib: Library, e: Entity, k: nat): seq<string>
    requires e.Entity?
    decreases e, 0, |e.parts| - k
  {
    if k >= |e.parts| || e.parts[k].Unreadable? then []
    else Attachments(lib, e.parts[k]) + PartAttachments(lib, e, k + 1)
  }

  /** The walk appends exactly the tree's attachment names, in order, whatever the
      body found so far. */
  lemma {:induction false} WalkAttachments(lib: Library, e: Entity, st: Content)
    ensures Walk(lib, e, st).attachments == st.attachments + Attachments(lib, e)
    decreases e, 1
  {
    match e
    case Unreadable =>
    case Entity(contentType, _, _, _, _) =>
      if HasPrefix(MediaOf(lib, contentType).0, "multipart/") {
        WalkPartsAttachments(lib, e, 0, st);
      }
  }

  lemma {:induction false} WalkPartsAttachments(lib: Library, e: Entity, k: nat, st: Content)
    requires e.Entity?
    ensures WalkParts(lib, e, k, st).attachments == st.attachments + PartAttachments(lib, e, k)
    decreases e, 0, |e.parts| - k
  {
    if k < |e.parts| && !e.parts[k].Unreadable? {
      var st2 := Walk(lib, e.parts[k], st);
      WalkAttachments(lib, e.parts[k], st);
      WalkPartsAttachments(lib, e, k + 1, st2);
    }
  }

  /** Once a body is set it stays: the first text leaf that yields a non-empty body wins. */
  lemma {:induction false} WalkKeepsBody(lib: Library, e: Entity, st: Content)
    requires st.body != ""
    ensures Walk(lib, e, st).body == st.body && Walk(lib, e, st).bodyType == st.bodyType
    decreases e, 1
  {
    match e
    case Unreadable =>
    case Entity(contentType, _, _, _, _) =>
      if HasPrefix(MediaOf(lib, contentType).0, "multipart/") {
        WalkPartsKeepsBody(lib, e, 0, st);
      }
  }

  lemma {:induction false} WalkPartsKeepsBody(lib: Library, e: Entity, k: nat, st: Content)
    requires e.Entity? && st.body != ""
    ensures WalkParts(lib, e, k, st).body == st.body && WalkParts(lib, e, k, st).bodyType == st.bodyType
    decreases e, 0, |e.parts| - k
  {
    if k < |e.parts| && !e.parts[k].Unreadable? {
      WalkKeepsBody(lib, e.parts[k], st);
      WalkPartsKeepsBody(lib, e, k + 1, Walk(lib, e.parts[k], st));
    }
  }

  /** The body type is only ever set to text/plain or text/html. */
  lemma {:induction false} WalkBodyType(lib: Library, e: Entity, st: Content)
    ensures var r := Walk(lib, e, st); r.bodyType == st.bodyType || IsText(r.bodyType)
    decreases e, 1
  {
    match e
    case Unreadable =>
    case Entity(contentType, _, _, _, _) =>
      if HasPrefix(MediaOf(lib, contentType).0, "multipart/") {
        WalkPartsBodyType(lib, e, 0, st);
      }
  }

  lemma {:induction false} WalkPartsBodyType(lib: Library, e: Entity, k: nat, st: Content)
    requires e.Entity?
    ensures var r := WalkParts(lib, e, k, st); r.bodyType == st.bodyType || IsText(r.bodyType)
    decreases e, 0, |e.parts| - k
  {
    if k < |e.parts| && !e.parts[k].Unreadable? {
      var st2 := Walk(lib, e.parts[k], st);
      WalkBodyType(lib, e.parts[k], st);
      WalkPartsBodyType(lib, e, k + 1, st2);
    }
  }

  /** A part that cannot be read ends the walk of its multipart entity: the parts after
      it are never visited. */
  lemma UnreadablePartStops(lib: Library, e: Entity, k: nat, st: Content)
    requires e.Entity? && k < |e.parts| && e.parts[k].Unreadable?
    ensures WalkParts(lib, e, k, st) == st
    ensures PartAttachments(lib, e, k) == []
  {
  }

  /** A leaf whose raw body cannot be read is skipped: it is neither an attachment nor
      the body, and the content stays as it was, whatever its transfer encoding. A leaf
      whose body reads and decodes becomes the body when none is set yet. */
  lemma UnreadableBodySkipped(lib: Library, e: Entity, st: Content)
    requires e.Entity? && !HasPrefix(MediaOf(lib, e.contentType).0, "multipart/")
    requires AttachmentName(lib, e.disposition).None?
    ensures e.body.None? ==> Walk(lib, e, st) == st
    ensures Transferred(lib, e.transferEncoding, e.body).Some? && st.body == "" && IsText(MediaOf(lib, e.contentType).0)
            ==> Walk(lib, e, st).bodyType == MediaOf(lib, e.contentType).0
  {
  }
}
