/** The library parsers and decoders the mailbox code calls, as uninterpreted
    functions: net/mail, time.Parse, mime, the base64 and quoted-printable
    decoders and the IANA character-set index. Nothing about them is assumed
    beyond their signatures. */
module MailLib {
  import opened Text

  /** A point in time as Unix milliseconds. */
  type Time = int

  /** time.Time{}: 00:00:00 UTC on 1 January of year 1. */
  const ZeroTime: Time := -62135596800000

  /** A parsed media type (mime.ParseMediaType): the lower-cased value and its parameters. */
  datatype MediaType = MediaType(value: string, params: map<string, string>)

  /** params[key] on a Go map: the empty string when the key is absent. */
  function Param(params: map<string, string>, key: string): (r: string)
    ensures key !in params ==> r == ""
    ensures key in params ==> r == params[key]
  {
    if key in params then params[key] else ""
  }

  /** A parsed mailbox address (mail.Address). */
  datatype Address = Address(name: string, address: string)

  /** A character set the IANA index knows. */
  datatype Charset = Charset(name: string)

  /** The UTF-8 entry of the IANA index. */
  const Utf8: Charset := Charset("utf-8")

  datatype Library = Library(
    /** mail.ParseDate; None is a parse error. */
    parseDate: string -> Option<Time>,
    /** mail.ParseAddressList; None is a parse error. */
    parseAddressList: string -> Option<seq<Address>>,
    /** time.Parse(layout, value); None is a parse error. */
    timeParse: (string, string) -> Option<Time>,
    /** mime.ParseMediaType; None is a parse error. */
    parseMediaType: string -> Option<MediaType>,
    /** DecodeHeader of a mime.WordDecoder whose CharsetReader is charsetReader. */
    decodeHeader: string -> Option<string>,
    /** Reading a body through base64.NewDecoder to the end; None is a read error. */
    base64: seq<Byte> -> Option<seq<Byte>>,
    /** Reading a body through quotedprintable.NewReader to the end; None is a read error. */
    quotedPrintable: seq<Byte> -> Option<seq<Byte>>,
    /** ianaindex.IANA.Encoding; None is an error or a nil encoding. */
    ianaEncoding: string -> Option<Charset>,
    /** encoding.NewDecoder().Bytes; None is a decode error. */
    decodeCharset: (Charset, seq<Byte>) -> Option<string>,
    /** Go's string(bytes) conversion. */
    bytesToString: seq<Byte> -> string
  )
}
