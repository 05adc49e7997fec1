/**
 * The `Value` object a component owns: the raw string, and once decoded, the structured
 * fields and the name of the format that produced them. `value.go` is not part of this model;
 * this module states the contract the Path component relies on when it calls into a Value.
 */
module Values {
  import opened Wrappers
  import opened Errors
  import opened DataFormat

  /**
   * `format` is `None` until a decode has been recorded; while it is `None`, only `raw`
   * is meaningful and `parsed` is empty.
   */
  datatype Value = Value(raw: string, parsed: Fields, format: Option<string>)
  {
    /** `String()`: the raw form, verbatim. */
    function String(): string { raw }

    /** `Parsed()`: the structured form, empty when nothing was decoded. */
    function Parsed(): Fields { parsed }

    /** True once a decoded form has been recorded. */
    predicate IsDecoded() { format.Some? }
  }

  /** A Value is well-formed when an undecoded Value carries no fields. */
  predicate Valid(v: Value)
  {
    v.format.None? ==> v.parsed == map[]
  }

  /** `NewValue(raw)`: a fresh Value holding only its raw form. */
  function NewValue(raw: string): (v: Value)
    ensures Valid(v) && !v.IsDecoded()
    ensures v.String() == raw
    ensures v.Parsed() == map[]
  {
    Value(raw, map[], None)
  }

  /** `SetParsed(parsed, format)`: records a decoded form and its codec, without validation. */
  function SetParsed(v: Value, parsed: Fields, format: string): (r: Value)
    ensures Valid(r) && r.IsDecoded()
    ensures r.String() == v.String()
    ensures r.Parsed() == parsed && r.format == Some(format)
  {
    v.(parsed := parsed, format := Some(format))
  }

  /**
   * `SetParsedValue(key, value) -> bool`: replaces the value under an existing key and reports
   * true; reports false and leaves the Value as it was when the key is absent (no insertion).
   */
  function SetParsedValue(v: Value, key: string, s: string): (r: (bool, Value))
    requires Valid(v)
    ensures Valid(r.1)
    ensures r.0 <==> key in v.Parsed()
    ensures !r.0 ==> r.1 == v
    ensures r.1.Parsed().Keys == v.Parsed().Keys
    ensures r.0 ==> r.1.Parsed()[key] == Text(s)
    ensures forall k :: k in v.Parsed() && k != key ==> r.1.Parsed()[k] == v.Parsed()[k]
    ensures r.1.String() == v.String() && r.1.format == v.format
  {
    if key in v.parsed then (true, v.(parsed := v.parsed[key := Text(s)])) else (false, v)
  }

  /**
   * `Delete(key) -> bool`: removes an existing key and reports true; reports false and leaves
   * the Value as it was when the key is absent.
   */
  function Delete(v: Value, key: string): (r: (bool, Value))
    requires Valid(v)
    ensures Valid(r.1)
    ensures r.0 <==> key in v.Parsed()
    ensures !r.0 ==> r.1 == v
    ensures r.1.Parsed().Keys == v.Parsed().Keys - {key}
    ensures forall k :: k in r.1.Parsed() ==> r.1.Parsed()[k] == v.Parsed()[k]
    ensures r.1.String() == v.String() && r.1.format == v.format
  {
    if key in v.parsed then (true, v.(parsed := v.parsed - {key})) else (false, v)
  }

  /**
   * `Encode() -> (string, error)`: before any decode the raw form is the output; afterwards the
   * fields go through the codec registered under the recorded format, and an unregistered
   * format is an error. The Value itself is not changed (it is not part of the result).
   */
  function Encode(v: Value, codecs: Registry): (r: Result<string, Error>)
    ensures !v.IsDecoded() ==> r == Success(v.String())
    ensures v.IsDecoded() && codecs(v.format.value).None? ==> r == Failure(UnknownFormat(v.format.value))
    ensures v.IsDecoded() && codecs(v.format.value).Some? ==>
              r == codecs(v.format.value).value.encode(v.Parsed())
  {
    match v.format
    case None => Success(v.raw)
    case Some(f) =>
      match codecs(f)
      case None => Failure(UnknownFormat(f))
      case Some(c) => c.encode(v.parsed)
  }

  /** Deleting the same key twice: the second call reports false and changes nothing. */
  lemma DeleteIdempotent(v: Value, key: string)
    requires Valid(v)
    ensures var once := Delete(v, key).1;
            var twice := Delete(once, key);
            !twice.0 && twice.1 == once
  {
  }

  /** A Value that was never decoded encodes back to the string it was made from. */
  lemma EncodeUndecoded(s: string, codecs: Registry)
    ensures Encode(NewValue(s), codecs) == Success(s)
  {
  }

  /**
   * Recording a decode and encoding at once gives the raw string back, when the codec
   * registered under the recorded format round-trips on it.
   */
  lemma EncodeAfterDecode(s: string, f: string, codecs: Registry)
    requires codecs(f).Some? && codecs(f).value.decode(s).Success?
    requires RoundTripsOn(codecs(f).value, s)
    ensures Encode(SetParsed(NewValue(s), codecs(f).value.decode(s).value, f), codecs) == Success(s)
  {
  }
}
