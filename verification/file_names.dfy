/** What both encoders' `save_docs` share: the `.joblib` extension, the
    fallback to a default name, and the `directory/name` path. */
module FileNames {

  import opened Wrappers
  import opened Text
  import opened Frames

  const Extension: string := ".joblib"

  /** The marker the encoders append for embeddings trained without stop
      words, and that the decoder strips. */
  const FlagSuffix: string := "_b"

  /** The word Doc2Vec's default names carry after the dimension, and that the
      decoder deletes. */
  const DimensionsWord: string := "dimensions"

  /** What `save_docs` hands to `joblib.dump`: the file path and the embeddings. */
  datatype Written = Written(path: string, embeddings: seq<Vector>)

  /** `if not name.endswith(".joblib"): name = f"{name}.joblib"` */
  function WithExtension(name: string): (r: string)
    ensures EndsWith(r, Extension)
    ensures r == name <==> EndsWith(name, Extension)
    ensures !EndsWith(name, Extension) ==> r == name + Extension
  {
    if EndsWith(name, Extension) then name
    else
      assert (name + Extension)[|name|..] == Extension;
      name + Extension
  }

  /** Adding the extension a second time changes nothing. */
  lemma WithExtensionIdempotent(name: string)
    ensures WithExtension(WithExtension(name)) == WithExtension(name)
  {
  }

  /** The shape of both encoders' default names,
      `{head} - {body}{tail}{mark}.joblib`: the encoder's name, what it was
      configured with, an optional trailing word and the stop-word marker. */
  function DescribedName(head: string, body: string, tail: string, mark: string): (name: string)
    ensures EndsWith(name, tail + mark + Extension)
    ensures StartsWith(name, head) && StartsWith(name, head + " - " + body)
  {
    var name := head + " - " + body + tail + mark + Extension;
    assert name[|name| - |tail + mark + Extension|..] == tail + mark + Extension;
    assert name[..|head|] == head;
    assert name[..|head + " - " + body|] == head + " - " + body;
    name
  }

  /** `if not name: name = default`: both `None` and `""` fall back. */
  function NameOrDefault(name: Option<string>, default: string): (r: string)
    ensures name.Some? && name.value != [] ==> r == name.value
    ensures name.None? || name.value == [] ==> r == default
  {
    if name.None? || name.value == [] then default else name.value
  }

  /** `f'{directory}/{name}'` */
  function JoinPath(directory: string, name: string): (path: string)
    ensures |path| == |directory| + 1 + |name|
    ensures EndsWith(path, name) && StartsWith(path, directory)
    ensures path[|directory|] == '/'
  {
    var path := directory + "/" + name;
    assert path[|path| - |name|..] == name;
    assert path[..|directory|] == directory;
    path
  }
}
