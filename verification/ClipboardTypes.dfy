/** Clipboard contents, and the encodings that the store treats as black boxes. */
module ClipboardTypes {
  import opened Sequences
  import opened ByteStrings
  import opened TimeKey

  type ContentType = string

  /** A clipboard format offered by the display server. */
  type MimeType = string

  const TYPE_STRING: ContentType := "string"
  const TYPE_TEXT: ContentType := "text"
  const TYPE_IMAGE: ContentType := "image"
  const TYPE_FILE: ContentType := "file"
  const TYPE_URL: ContentType := "url"
  const TYPE_FILE_PATH: ContentType := "filepath"
  const TYPE_HTML: ContentType := "html"
  const TYPE_RTF: ContentType := "rtf"

  datatype Content = Content(kind: ContentType, data: Bytes, created: Time, compressed: bool)

  /** `json.Marshal`, `json.Unmarshal` and `DecompressContent`. */
  datatype Codec = Codec(
    encode: Content -> Bytes, decode: Bytes -> Option<Content>, inflate: Content -> Option<Content>)

  /**
   What the store relies on: JSON decoding inverts encoding, a JSON text is no shorter than the
   data inside it (base64 expands), and decompression keeps the time.
   */
  ghost predicate Faithful(codec: Codec) {
    && (forall c :: codec.decode(codec.encode(c)) == Some(c))
    && (forall v :: codec.decode(v).Some? ==> |codec.decode(v).value.data| <= |v|)
    && (forall c :: codec.inflate(c).Some? ==> codec.inflate(c).value.created == c.created)
  }

  /** `c` is what a reader may give of a stored content: itself, or what it decompresses to. */
  predicate OpensTo(codec: Codec, stored: Content, c: Content) {
    if stored.compressed then codec.inflate(stored) == Some(c) else c == stored
  }

  /** An entry's content as readers return it. */
  function Opened(codec: Codec, c: Content): Option<Content> {
    if c.compressed then codec.inflate(c) else Some(c)
  }
}
