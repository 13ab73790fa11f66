/** The `SBERT` wrapper class: deduplicated input rows, one sentence-transformer
    embedding per row, the embedding width, and the file the embeddings are
    saved to. The transformer is external and appears only as the `encode`
    parameter. */
module SbertEncoder {

  import opened Wrappers
  import opened Text
  import opened Frames
  import opened FileNames

  /** The model whose width the fallback knows to be 384. */
  const MiniLm: string := "all-MiniLM-L6-v2"

  datatype Encoding = Encoding(model: string, documentsCol: Column,
                               embeddings: seq<Vector>, dimensions: nat)

  /** The object's attributes; `None` stands for attributes not yet assigned. */
  datatype Sbert = Sbert(data: seq<Row>, pbLength: nat, encoding: Option<Encoding>)

  /** The `AttributeError` raised when `save_docs` runs before `document_encode`. */
  datatype Failure = MissingAttribute(attribute: string)

  /** `__init__`: keep the first row of every `text_index`; the progress bar
      length is the number of rows kept. */
  function New(inputDf: seq<Row>): (s: Sbert)
    ensures IsFirstOccurrences(inputDf, s.data)
    ensures s.pbLength == |s.data| == |KeysOf(inputDf)|
    ensures s.encoding.None?
  {
    var data := DropDuplicates(inputDf);
    Sbert(data, |data|, None)
  }

  /** The width assumed when there is no first embedding to measure. */
  function FallbackDimensions(model: string): (n: nat)
    ensures n == 384 <==> model == MiniLm
    ensures n != 384 ==> n == 768
  {
    if model == MiniLm then 384 else 768
  }

  /** `document_encode`: one embedding per row, in row order, of the row's text
      in the chosen column; the width is that of the first embedding, or the
      fallback when there are no rows. */
  function DocumentEncode(s: Sbert, model: string, stopWords: bool, encode: string -> Vector)
    : (r: Sbert)
    ensures r.data == s.data && r.pbLength == s.pbLength && r.encoding.Some?
    ensures r.encoding.value.model == model
    ensures ColumnName(r.encoding.value.documentsCol) == "text_preprocessed" <==> stopWords
    ensures |r.encoding.value.embeddings| == |s.data|
    ensures forall i | 0 <= i < |s.data| ::
              r.encoding.value.embeddings[i] == encode(Field(s.data[i], r.encoding.value.documentsCol))
    ensures |s.data| > 0 ==> r.encoding.value.dimensions == |r.encoding.value.embeddings[0]|
    ensures |s.data| == 0 ==> r.encoding.value.dimensions in {384, 768}
    ensures |s.data| == 0 ==> (r.encoding.value.dimensions == 384 <==> model == MiniLm)
  {
    var col := DocumentsColumn(stopWords);
    var texts := Texts(s.data, col);
    var embeddings := seq(|texts|, i requires 0 <= i < |texts| => encode(texts[i]));
    var dimensions := if |embeddings| > 0 then |embeddings[0]| else FallbackDimensions(model);
    s.(encoding := Some(Encoding(model, col, embeddings, dimensions)))
  }

  /** Encoding a freshly built object yields exactly `pb_length` embeddings. */
  lemma EncodeCountsProgressBar(inputDf: seq<Row>, model: string, stopWords: bool,
                                encode: string -> Vector)
    ensures var s := New(inputDf);
            |DocumentEncode(s, model, stopWords, encode).encoding.value.embeddings| == s.pbLength
  {
  }

  /** The name `save_docs` picks when none is given: `SBERT - {model}{tag}.joblib`. */
  function DefaultName(model: string, tag: string): (name: string)
    ensures EndsWith(name, tag + Extension) && EndsWith(name, Extension)
    ensures StartsWith(name, "SBERT - " + model)
  {
    assert "" + tag + Extension == tag + Extension;
    assert "SBERT" + " - " + model == "SBERT - " + model;
    assert (tag + Extension)[|tag|..] == Extension;
    DescribedName("SBERT", model, "", tag)
  }

  /** The file name `save_docs` writes to: the given name or the default,
      with `.joblib` appended when missing. */
  function FileName(model: string, tag: string, name: Option<string>): (file: string)
    ensures EndsWith(file, Extension)
    ensures name.None? || name.value == [] ==> file == WithExtension(DefaultName(model, tag))
    ensures name.Some? && EndsWith(name.value, Extension) ==> file == name.value
    ensures name.Some? && name.value != [] && !EndsWith(name.value, Extension) ==>
              file == name.value + Extension
  {
    WithExtension(NameOrDefault(name, DefaultName(model, tag)))
  }

  /** `save_docs`: writes the embeddings to `directory/file`. Without a prior
      `document_encode` it fails on `model` when it has to build the default
      name, and on `document_embeddings` otherwise. */
  function SaveDocs(s: Sbert, directory: string, tag: string, name: Option<string>)
    : (r: Result<Written, Failure>)
    ensures r.Ok? <==> s.encoding.Some?
    ensures r.Err? && (name.None? || name.value == []) ==> r.error == MissingAttribute("model")
    ensures r.Err? && name.Some? && name.value != [] ==> r.error == MissingAttribute("document_embeddings")
    ensures r.Ok? ==>
              && EndsWith(r.value.path, Extension)
              && r.value.path == directory + "/" + FileName(s.encoding.value.model, tag, name)
              && r.value.embeddings == s.encoding.value.embeddings
  {
    if s.encoding.None? then
      if name.None? || name.value == [] then Err(MissingAttribute("model"))
      else Err(MissingAttribute("document_embeddings"))
    else
      var e := s.encoding.value;
      var file := FileName(e.model, tag, name);
      var path := JoinPath(directory, file);
      EndsWithTrans(path, file, Extension);
      Ok(Written(path, e.embeddings))
  }
}
