/**
 * The Path fuzzing component (`component.Path`): the URL path of a request, decoded with the
 * raw data format into fields a fuzzing driver can iterate, overwrite and delete, and encoded
 * back into a copy of the request.
 */
module PathComponent {
  import opened Wrappers
  import opened Errors
  import opened Http
  import opened DataFormat
  import Values

  /** The component name `RequestPathComponent`. */
  const RequestPathComponent: string := "path"

  /** The context message `Rebuild` wraps an encoding error with. */
  const EncodeContext: string := "could not encode query"

  /**
   * The state of a `*Path`: `Unparsed` as `NewPath` leaves it (nil value and request), and
   * `Loaded` once `Parse` has stored a request and a fresh Value.
   */
  datatype Path = Unparsed | Loaded(req: Request, value: Values.Value)

  predicate Valid(p: Path)
  {
    p.Loaded? ==> Values.Valid(p.value)
  }

  /** `NewPath()`: a component with nothing parsed yet. */
  function NewPath(): Path
  {
    Unparsed
  }

  /** `Name()`: the component's identifier, whatever its state. */
  function Name(p: Path): (r: string)
    ensures r == RequestPathComponent
  {
    RequestPathComponent
  }

  /** What `Parse` leaves behind and returns: the new state and Go's `(bool, error)`. */
  datatype ParseResult = ParseResult(next: Path, handled: bool, err: Option<Error>)

  /**
   * `Parse(req)`: stores `req` and a fresh Value built from its URL path, then decodes that path
   * with the raw codec. The state before the call plays no part in the result.
   */
  function Parse(p: Path, req: Request, codecs: Registry): (r: ParseResult)
    requires codecs(RawDataFormat).Some?
    ensures Valid(r.next) && r.next.Loaded?
    ensures r.next.req == req && r.next.value.String() == req.url.path
    ensures r.handled <==> r.err.None?
    ensures var d := codecs(RawDataFormat).value.decode(req.url.path);
            d.Failure? ==> && r.err == Some(d.error)
                           && !r.next.value.IsDecoded()
                           && r.next.value.Parsed() == map[]
    ensures var d := codecs(RawDataFormat).value.decode(req.url.path);
            d.Success? ==> && r.err.None?
                           && r.next.value.Parsed() == d.value
                           && r.next.value.format == Some(RawDataFormat)
  {
    var value := Values.NewValue(req.url.path);
    match codecs(RawDataFormat).value.decode(value.String())
    case Failure(e) => ParseResult(Loaded(req, value), false, Some(e))
    case Success(parsed) => ParseResult(Loaded(req, Values.SetParsed(value, parsed, RawDataFormat)), true, None)
  }

  /**
   * A visiting order for Go's `range` over a map: every key of `fields` exactly once, in an
   * order the runtime picks and the model leaves open.
   */
  predicate Enumerates(order: seq<string>, fields: Fields)
  {
    && (forall i, j :: 0 <= i < j < |order| ==> order[i] != order[j])
    && (forall k :: k in fields ==> k in order)
    && (forall i :: 0 <= i < |order| ==> order[i] in fields)
  }

  /** The driver's callback: nil (`None`) to go on, an error to stop. */
  type Callback = (string, Datum) -> Option<Error>

  /**
   * `Iterate(callback)`: calls `callback` on the parsed entries in the order `order` until one
   * returns an error, and returns that error. `visited` lists the keys the callback was called
   * on, in call order.
   */
  method Iterate(p: Path, order: seq<string>, callback: Callback) returns (err: Option<Error>, visited: seq<string>)
    requires p.Loaded?
    requires Enumerates(order, p.value.Parsed())
    ensures visited <= order
    ensures forall i, j :: 0 <= i < j < |visited| ==> visited[i] != visited[j]
    ensures forall i :: 0 <= i < |visited| ==> visited[i] in p.value.Parsed()
    ensures forall i :: 0 <= i < |visited| - 1 ==> callback(visited[i], p.value.Parsed()[visited[i]]).None?
    ensures err.Some? ==> |visited| > 0 && callback(visited[|visited| - 1], p.value.Parsed()[visited[|visited| - 1]]) == err
    ensures err.None? ==> visited == order
    ensures err.None? <==> forall k :: k in p.value.Parsed() ==> callback(k, p.value.Parsed()[k]).None?
  {
    var fields := p.value.Parsed();
    var i := 0;
    visited := [];
    while i < |order|
      invariant 0 <= i <= |order|
      invariant visited == order[..i]
      invariant forall j :: 0 <= j < i ==> callback(order[j], fields[order[j]]).None?
    {
      var key := order[i];
      var e := callback(key, fields[key]);
      visited := visited + [key];
      if e.Some? {
        return e, visited;
      }
      i := i + 1;
    }
    return None, visited;
  }

  /**
   * `SetValue(key, value)`: overwrites the value of an existing key; `ErrSetValue` when the
   * Value reports that it could not set it, which leaves the component as it was.
   */
  function SetValue(p: Path, key: string, s: string): (r: (Path, Option<Error>))
    requires Valid(p) && p.Loaded?
    ensures Valid(r.0) && r.0.Loaded? && r.0.req == p.req
    ensures r.1 == Some(ErrSetValue) <==> key !in p.value.Parsed()
    ensures r.1.None? <==> key in p.value.Parsed()
    ensures r.1.Some? ==> r.0 == p
    ensures r.1.None? ==> && r.0.value.Parsed().Keys == p.value.Parsed().Keys
                          && r.0.value.Parsed()[key] == Text(s)
                          && (forall k :: k in p.value.Parsed() && k != key ==> r.0.value.Parsed()[k] == p.value.Parsed()[k])
                          && r.0.value.String() == p.value.String()
                          && r.0.value.format == p.value.format
  {
    var (ok, value) := Values.SetParsedValue(p.value, key, s);
    if !ok then (p, Some(ErrSetValue)) else (p.(value := value), None)
  }

  /**
   * `Delete(key)`: removes an existing key; `ErrKeyNotFound` when the Value reports the key
   * absent, which leaves the component as it was.
   */
  function Delete(p: Path, key: string): (r: (Path, Option<Error>))
    requires Valid(p) && p.Loaded?
    ensures Valid(r.0) && r.0.Loaded? && r.0.req == p.req
    ensures r.1 == Some(ErrKeyNotFound) <==> key !in p.value.Parsed()
    ensures r.1.None? <==> key in p.value.Parsed()
    ensures r.1.Some? ==> r.0 == p
    ensures r.1.None? ==> && r.0.value.Parsed().Keys == p.value.Parsed().Keys - {key}
                          && (forall k :: k in r.0.value.Parsed() ==> r.0.value.Parsed()[k] == p.value.Parsed()[k])
                          && r.0.value.String() == p.value.String()
                          && r.0.value.format == p.value.format
  {
    var (ok, value) := Values.Delete(p.value, key);
    if !ok then (p, Some(ErrKeyNotFound)) else (p.(value := value), None)
  }

  /**
   * `Rebuild()`: encodes the Value and writes the result into a clone of the stored request.
   * An encoding error is returned wrapped, with no request. Otherwise the call succeeds: the
   * clone is handed to the updater, and when the updater reports an error, the raw path of
   * the clone as the updater left it is overwritten with the encoded string and the error is
   * dropped. The component and its stored request are not changed.
   */
  function Rebuild(p: Path, codecs: Registry, update: PathUpdater): (r: Result<Request, Error>)
    requires p.Loaded?
    ensures var enc := Values.Encode(p.value, codecs);
            enc.Failure? ==> r == Failure(Wrapped(EncodeContext, enc.error))
    ensures var enc := Values.Encode(p.value, codecs);
            enc.Success? ==> r.Success?
    ensures var enc := Values.Encode(p.value, codecs);
            enc.Success? && update(p.req, enc.value).1.None? ==> r.value == update(p.req, enc.value).0
    ensures var enc := Values.Encode(p.value, codecs);
            enc.Success? && update(p.req, enc.value).1.Some? ==>
              var touched := update(p.req, enc.value).0;
              && r.value.url.rawPath == enc.value
              && r.value.(url := r.value.url.(rawPath := touched.url.rawPath)) == touched
  {
    match Values.Encode(p.value, codecs)
    case Failure(e) => Failure(Wrapped(EncodeContext, e))
    case Success(encoded) =>
      var (cloned, err) := update(p.req, encoded);
      if err.None? then Success(cloned) else Success(WithRawPath(cloned, encoded))
  }

  /**
   * Parsing a request and rebuilding it at once gives its path back: as the path when the
   * updater accepts it, otherwise as the raw path of the clone the updater left. This holds
   * both when the raw codec decodes the path (given that it round-trips there) and when it
   * fails (the undecoded Value encodes to its raw form).
   */
  lemma ParseThenRebuild(p: Path, req: Request, codecs: Registry, update: PathUpdater)
    requires codecs(RawDataFormat).Some?
    requires RoundTripsOn(codecs(RawDataFormat).value, req.url.path)
    requires InstallsPath(update, req, req.url.path)
    ensures var r := Rebuild(Parse(p, req, codecs).next, codecs, update);
            && r.Success?
            && (update(req, req.url.path).1.None? ==> r.value.url.path == req.url.path)
            && (update(req, req.url.path).1.Some? ==>
                  r.value == WithRawPath(update(req, req.url.path).0, req.url.path))
  {
    var next := Parse(p, req, codecs).next;
    assert Values.Encode(next.value, codecs) == Success(req.url.path);
  }

  /** A rejected `SetValue` or `Delete` leaves what `Rebuild` produces unchanged. */
  lemma FailedEditKeepsRebuild(p: Path, key: string, s: string, codecs: Registry, update: PathUpdater)
    requires Valid(p) && p.Loaded?
    ensures SetValue(p, key, s).1.Some? ==> Rebuild(SetValue(p, key, s).0, codecs, update) == Rebuild(p, codecs, update)
    ensures Delete(p, key).1.Some? ==> Rebuild(Delete(p, key).0, codecs, update) == Rebuild(p, codecs, update)
  {
  }

  /** A key of a duplicate-free sequence occurs in it exactly once. */
  lemma {:induction false} OccursOnce(order: seq<string>, key: string)
    requires forall i, j :: 0 <= i < j < |order| ==> order[i] != order[j]
    requires key in order
    ensures multiset(order)[key] == 1
  {
    if order[0] == key {
      assert order == [key] + order[1..];
      assert key !in order[1..];
    } else {
      assert order == [order[0]] + order[1..];
      OccursOnce(order[1..], key);
    }
  }

  /**
   * After a successful `SetValue(key, s)`, any iteration over the component meets `key`
   * exactly once, holding `s`.
   */
  lemma SetValueVisibleOnce(p: Path, key: string, s: string, order: seq<string>)
    requires Valid(p) && p.Loaded?
    requires SetValue(p, key, s).1.None?
    requires Enumerates(order, SetValue(p, key, s).0.value.Parsed())
    ensures multiset(order)[key] == 1
    ensures SetValue(p, key, s).0.value.Parsed()[key] == Text(s)
  {
    OccursOnce(order, key);
  }

  /**
   * A successful `SetValue` followed by `Iterate`: the callback meets the key at most once,
   * and, when no callback fails, exactly once, holding the new string.
   */
  method IterateAfterSetValue(p: Path, key: string, s: string, order: seq<string>, callback: Callback)
    returns (setErr: Option<Error>, err: Option<Error>, visited: seq<string>)
    requires Valid(p) && p.Loaded?
    requires Enumerates(order, SetValue(p, key, s).0.value.Parsed())
    ensures setErr == SetValue(p, key, s).1
    ensures visited <= order
    ensures err.None? ==> visited == order
    ensures err.Some? ==> |visited| > 0
    ensures setErr.None? ==> multiset(visited)[key] <= 1
    ensures setErr.None? && err.None? ==> callback(key, Text(s)).None?
    ensures setErr.None? && err.Some? && visited[|visited| - 1] == key ==> callback(key, Text(s)) == err
    ensures setErr.None? && err.None? ==>
              && multiset(visited)[key] == 1
              && SetValue(p, key, s).0.value.Parsed()[key] == Text(s)
  {
    var (next, e) := SetValue(p, key, s);
    setErr := e;
    err, visited := Iterate(next, order, callback);
    if setErr.None? {
      if key in visited {
        OccursOnce(visited, key);
      } else {
        assert multiset(visited)[key] == 0;
      }
    }
  }
}
