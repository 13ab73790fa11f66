/** The `Doc2Vec` wrapper class: deduplicated input rows, tagged documents,
    one inferred embedding per row, and the file the embeddings are saved to.
    Training and inference are gensim's and appear only as the `infer`
    parameter. */
module Doc2VecEncoder {

  import opened Wrappers
  import opened Text
  import opened Frames
  import opened FileNames

  /** gensim's `TaggedDocument(words, tags)`. */
  datatype TaggedDocument = TaggedDocument(words: seq<string>, tags: seq<int>)

  /** The `dimensions` argument: the default is the integer 100, and the
      training script passes strings such as "025". */
  datatype Dims = IntDims(n: int) | TextDims(s: string)

  /** `str(dimensions)`, as an f-string renders it. An integer dimension is
      written as text that `int` accepts and reads back as the integer. */
  function Render(d: Dims): (text: string)
    ensures d.IntDims? ==> IsIntLiteral(text) && ParseInt(text) == d.n
  {
    match d
    case IntDims(n) =>
      IntToStringIsIntLiteral(n);
      IntToStringRoundTrip(n);
      IntToString(n)
    case TextDims(s) => s
  }

  datatype Tagging = Tagging(documentsCol: Column, taggedDocs: seq<TaggedDocument>)

  datatype Encoding = Encoding(dimensions: Dims, embeddings: seq<Vector>)

  /** The object's attributes; `None` stands for an attribute not yet assigned. */
  datatype Doc2Vec = Doc2Vec(data: seq<Row>, tagging: Option<Tagging>, encoding: Option<Encoding>)

  /** The `AttributeError` raised when a method reads an attribute an earlier
      step should have set, and the `ValueError` of `int(dimensions)` on text
      that is not an integer. */
  datatype Failure = MissingAttribute(attribute: string) | NotAnInteger(text: string)

  /** `__init__`: keep the first row of every `text_index`. */
  function New(inputDf: seq<Row>): (d: Doc2Vec)
    ensures IsFirstOccurrences(inputDf, d.data)
    ensures d.tagging.None? && d.encoding.None?
  {
    Doc2Vec(DropDuplicates(inputDf), None, None)
  }

  /** `tag_docs`: document `i` is the whitespace split of row `i`'s text in the
      chosen column, tagged with its position. */
  function TagDocs(d: Doc2Vec, stopWords: bool): (r: Doc2Vec)
    ensures r.data == d.data && r.encoding == d.encoding && r.tagging.Some?
    ensures ColumnName(r.tagging.value.documentsCol) == "text_preprocessed" <==> stopWords
    ensures |r.tagging.value.taggedDocs| == |d.data|
    ensures forall i | 0 <= i < |d.data| ::
              && r.tagging.value.taggedDocs[i].tags == [i]
              && r.tagging.value.taggedDocs[i].words
                 == Words(Field(d.data[i], r.tagging.value.documentsCol))
  {
    var col := DocumentsColumn(stopWords);
    var texts := Texts(d.data, col);
    var tagged := seq(|texts|, i requires 0 <= i < |texts| => TaggedDocument(Words(texts[i]), [i]));
    d.(tagging := Some(Tagging(col, tagged)))
  }

  /** `int(dimensions)` succeeds: always for an integer, and for text that
      Python reads as one. Either way, exactly when the text the default
      name carries for `dimensions` is an integer literal. */
  predicate IntConvertible(dimensions: Dims): (ok: bool)
    ensures ok <==> IsIntLiteral(Render(dimensions))
  {
    match dimensions
    case IntDims(_) => true
    case TextDims(s) => IsIntLiteral(s)
  }

  /** `document_encode`: records `dimensions` and infers one vector per row,
      in row order, from the row's words in the tagged column. The model's
      `vector_size` is `int(dimensions)`, which fails first on non-numeric
      text; building the vocabulary then reads `tagged_docs`, so encoding
      before tagging fails. */
  function DocumentEncode(d: Doc2Vec, dimensions: Dims, infer: seq<string> -> Vector)
    : (r: Result<Doc2Vec, Failure>)
    ensures r.Ok? <==> IntConvertible(dimensions) && d.tagging.Some?
    ensures !IntConvertible(dimensions) ==> r == Err(NotAnInteger(Render(dimensions)))
    ensures IntConvertible(dimensions) && d.tagging.None? ==> r == Err(MissingAttribute("tagged_docs"))
    ensures r.Ok? ==>
              && r.value.data == d.data && r.value.tagging == d.tagging
              && r.value.encoding.Some?
              && r.value.encoding.value.dimensions == dimensions
              && |r.value.encoding.value.embeddings| == |d.data|
              && forall i | 0 <= i < |d.data| ::
                   r.value.encoding.value.embeddings[i]
                   == infer(Words(Field(d.data[i], d.tagging.value.documentsCol)))
  {
    if !IntConvertible(dimensions) then Err(NotAnInteger(Render(dimensions)))
    else if d.tagging.None? then Err(MissingAttribute("tagged_docs"))
    else
      var texts := Texts(d.data, d.tagging.value.documentsCol);
      var embeddings := seq(|texts|, i requires 0 <= i < |texts| => infer(Words(texts[i])));
      Ok(d.(encoding := Some(Encoding(dimensions, embeddings))))
  }

  /** Encoding right after tagging infers each vector from exactly the words
      of the matching tagged document. */
  lemma EncodeReadsTaggedWords(d: Doc2Vec, stopWords: bool, dimensions: Dims,
                               infer: seq<string> -> Vector, i: int)
    requires IntConvertible(dimensions)
    requires 0 <= i < |d.data|
    ensures var t := TagDocs(d, stopWords);
            var r := DocumentEncode(t, dimensions, infer);
            r.Ok? && r.value.encoding.value.embeddings[i]
                     == infer(t.tagging.value.taggedDocs[i].words)
  {
  }

  /** The name `save_docs` picks when none is given:
      `Doc2Vec - {dimensions} dimensions{_b?}.joblib`, with `_b` marking
      embeddings trained without stop words. */
  function DefaultName(dimensions: Dims, stopWords: bool): (name: string)
    ensures EndsWith(name, Extension)
    ensures EndsWith(name, FlagSuffix + Extension) <==> !stopWords
    ensures StartsWith(name, "Doc2Vec - " + Render(dimensions))
  {
    var stops := if stopWords then "" else FlagSuffix;
    var name := DescribedName("Doc2Vec", Render(dimensions), " " + DimensionsWord, stops);
    var tail := " " + DimensionsWord + stops + Extension;
    assert name[|name| - |tail|..] == tail;
    assert name[|name| - |Extension|..] == Extension by {
      assert tail[|tail| - |Extension|..] == Extension;
    }
    assert name[|name| - 9] == tail[|tail| - 9] == (if stopWords then 'n' else '_');
    assert (FlagSuffix + Extension)[0] == '_';
    assert "Doc2Vec" + " - " + Render(dimensions) == "Doc2Vec - " + Render(dimensions);
    name
  }

  /** The file name `save_docs` writes to: the given name or the default,
      with `.joblib` appended when missing. */
  function FileName(dimensions: Dims, stopWords: bool, name: Option<string>): (file: string)
    ensures EndsWith(file, Extension)
    ensures name.None? || name.value == [] ==> file == DefaultName(dimensions, stopWords)
    ensures name.Some? && EndsWith(name.value, Extension) ==> file == name.value
    ensures name.Some? && name.value != [] && !EndsWith(name.value, Extension) ==>
              file == name.value + Extension
  {
    WithExtension(NameOrDefault(name, DefaultName(dimensions, stopWords)))
  }

  /** `save_docs`: writes the embeddings to `directory/file`. Without a prior
      `document_encode` it fails on `dimensions` when it has to build the
      default name, and on `document_embeddings` otherwise. */
  function SaveDocs(d: Doc2Vec, directory: string, stopWords: bool, name: Option<string>)
    : (r: Result<Written, Failure>)
    ensures r.Ok? <==> d.encoding.Some?
    ensures r.Err? && (name.None? || name.value == []) ==> r.error == MissingAttribute("dimensions")
    ensures r.Err? && name.Some? && name.value != [] ==> r.error == MissingAttribute("document_embeddings")
    ensures r.Ok? ==>
              && EndsWith(r.value.path, Extension)
              && r.value.path == directory + "/" + FileName(d.encoding.value.dimensions, stopWords, name)
              && r.value.embeddings == d.encoding.value.embeddings
  {
    if d.encoding.None? then
      if name.None? || name.value == [] then Err(MissingAttribute("dimensions"))
      else Err(MissingAttribute("document_embeddings"))
    else
      var e := d.encoding.value;
      var file := FileName(e.dimensions, stopWords, name);
      var path := JoinPath(directory, file);
      EndsWithTrans(path, file, Extension);
      Ok(Written(path, e.embeddings))
  }
}
