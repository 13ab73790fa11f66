/** The `Embeddings` class: reads the model name, model type and stop-word
    flag back out of an embedding file's name, and loads the file at most once. */
module EmbeddingFiles {

  import opened Wrappers
  import opened Text
  import opened Frames
  import opened FileNames

  /** The two ways the constructor raises: `re.search` finds nothing, so
      `.group` is called on `None`; or the cleaned name has no `-` to unpack
      into two parts. */
  datatype Failure = NoFileSegment | NoHyphen

  /** What the decoder recovers from a file name. */
  datatype NameParts = NameParts(model: string, typ: string, noStopWords: bool)

  /** The value `load` stores: the unpickled vectors, or `False` when
      `joblib.load` raised. */
  datatype Payload = Vectors(rows: seq<Vector>) | LoadFailed

  /** The object's attributes; `data` is `None` until `load` has run. */
  datatype Embeddings = Embeddings(path: string, model: string, typ: string,
                                   noStopWords: bool, data: Option<Payload>)

  // ---------------------------------------------------------------------------
  // re.search(r'[^/]+$', path)
  // ---------------------------------------------------------------------------

  /** Start of the longest suffix of `path` that contains no `/`. */
  function SegmentStart(path: string): (i: nat)
    ensures i <= |path|
    ensures forall k | i <= k < |path| :: path[k] != '/'
    ensures i == 0 || path[i - 1] == '/'
  {
    if path == [] then 0
    else if path[|path| - 1] == '/' then |path|
    else SegmentStart(path[..|path| - 1])
  }

  /** The match of `[^/]+$`: the last path segment, or `None` when the path is
      empty or ends in `/`. (Python's `$` may also match before a final
      newline, but a newline is not `/`, so that adds no match.) */
  function TrailingSegment(path: string): (r: Option<string>)
    ensures r.Some? <==> path != [] && path[|path| - 1] != '/'
    ensures r.Some? ==> r.value != [] && '/' !in r.value && EndsWith(path, r.value)
    ensures r.Some? ==> |r.value| == |path| || path[|path| - |r.value| - 1] == '/'
  {
    var i := SegmentStart(path);
    if i == |path| then None
    else
      assert forall k | 0 <= k < |path[i..]| :: path[i..][k] == path[i + k];
      Some(path[i..])
  }

  // ---------------------------------------------------------------------------
  // _clean_name
  // ---------------------------------------------------------------------------

  /** `if n[-2:] == "_b": n = n[0:-2]`. For strings shorter than two
      characters `n[-2:]` is `n` itself, which cannot equal `"_b"`. */
  function StripFlag(n: string): (r: (string, bool))
    ensures r.1 <==> EndsWith(n, FlagSuffix)
    ensures r.1 ==> r.0 + FlagSuffix == n
    ensures !r.1 ==> r.0 == n
  {
    var tail := if |n| >= 2 then n[|n| - 2..] else n;
    if tail == FlagSuffix then
      assert n == n[..|n| - 2] + FlagSuffix;
      (n[..|n| - 2], true)
    else (n, false)
  }

  /** `n.replace(" ", "").replace("dimensions", "")`: no space survives,
      because deleting `dimensions` cannot bring one back. */
  function Squash(n: string): (r: string)
    ensures ' ' !in r
    ensures |r| <= |n|
  {
    var noSpaces := RemoveAll(n, " ");
    RemoveCharLeavesNone(n, ' ');
    RemoveAllKeepsAbsent(noSpaces, DimensionsWord, ' ');
    RemoveAll(noSpaces, DimensionsWord)
  }

  /** `_clean_name`: drop every `.joblib`, read and drop a trailing `_b`,
      squash, then split at the first `-` into model and type. */
  function CleanName(name: string): (r: Result<NameParts, Failure>)
    ensures var (rest, flag) := StripFlag(RemoveAll(name, Extension));
            && (r.Ok? <==> '-' in Squash(rest))
            && (r.Err? ==> r.error == NoHyphen)
            && (r.Ok? ==>
                  && r.value.noStopWords == flag
                  && r.value.model + "-" + r.value.typ == Squash(rest)
                  && '-' !in r.value.model
                  && ' ' !in r.value.model && ' ' !in r.value.typ)
  {
    var (rest, flag) := StripFlag(RemoveAll(name, Extension));
    var n := Squash(rest);
    match SplitOnce(n, '-')
    case None => Err(NoHyphen)
    case Some((model, typ)) =>
      Ok(NameParts(model, typ, flag))
  }

  /** The stop-word flag is read from the name with its extensions removed. */
  lemma FlagMeansTrailingMarker(name: string)
    requires CleanName(name).Ok?
    ensures CleanName(name).value.noStopWords <==> EndsWith(RemoveAll(name, Extension), FlagSuffix)
  {
  }

  // ---------------------------------------------------------------------------
  // __init__ and load
  // ---------------------------------------------------------------------------

  /** `Embeddings(path, name)`: the path is kept as given; the segment the
      regular expression extracts from it is overwritten at once, so only its
      existence matters, and the parts come from `name` alone. */
  function New(path: string, name: string): (r: Result<Embeddings, Failure>)
    ensures r.Ok? <==> TrailingSegment(path).Some? && CleanName(name).Ok?
    ensures TrailingSegment(path).None? ==> r == Err(NoFileSegment)
    ensures TrailingSegment(path).Some? && CleanName(name).Err? ==> r == Err(NoHyphen)
    ensures r.Ok? ==>
              && r.value.path == path && r.value.data.None?
              && NameParts(r.value.model, r.value.typ, r.value.noStopWords) == CleanName(name).value
  {
    if TrailingSegment(path).None? then Err(NoFileSegment)
    else
      match CleanName(name)
      case Err(e) => Err(e)
      case Ok(parts) => Ok(Embeddings(path, parts.model, parts.typ, parts.noStopWords, None))
  }

  /** Two objects built from different paths and the same name agree on
      everything read from the name. */
  lemma PartsIgnorePath(path1: string, path2: string, name: string)
    requires New(path1, name).Ok? && New(path2, name).Ok?
    ensures New(path1, name).value.(path := path2) == New(path2, name).value
  {
  }

  /** `load`: does nothing once `data` is set, whether it holds vectors or the
      `False` of a failed load; otherwise stores what reading `path` gave. */
  function Load(e: Embeddings, read: Payload): (r: Embeddings)
    ensures r.data.Some?
    ensures e.data.Some? ==> r == e
    ensures e.data.None? ==> r == e.(data := Some(read))
  {
    if e.data.Some? then e else e.(data := Some(read))
  }

  /** Loading twice is loading once: the second read is never consulted. */
  lemma LoadIdempotent(e: Embeddings, first: Payload, second: Payload)
    ensures Load(Load(e, first), second) == Load(e, first)
  {
  }
}
