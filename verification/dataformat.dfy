/**
 * Data formats: codecs between a raw string and a key-addressable structure. The codecs and
 * their registry are not part of this model; a codec is a pair of function values.
 */
module DataFormat {
  import opened Wrappers
  import opened Errors

  /** The name under which the pass-through codec is registered (`dataformat.RawDataFormat`). */
  const RawDataFormat: string := "raw"

  /** A structured value held under a key (Go's `interface{}` in a decoded map). */
  datatype Datum =
    | Text(s: string)
    | Number(n: int)
    | Flag(b: bool)
    | List(items: seq<Datum>)

  /** A decoded structure: keys to values. */
  type Fields = map<string, Datum>

  /** A codec: `Decode(raw) -> (KV, error)` and `Encode(KV) -> (string, error)`. */
  datatype Codec = Codec(decode: string -> Result<Fields, Error>, encode: Fields -> Result<string, Error>)

  /** `dataformat.Get`: a lookup of codecs by name, `None` for an unregistered name. */
  type Registry = string -> Option<Codec>

  /** Hypothesis for one input: if the codec decodes `s`, encoding the result gives `s` back. */
  predicate RoundTripsOn(c: Codec, s: string)
  {
    c.decode(s).Success? ==> c.encode(c.decode(s).value) == Success(s)
  }
}
