# Embedding file names and encoder bookkeeping, in Dafny

This project models the embedding classes of a research pipeline that
compares text-embedding methods on a corpus of legislative rule texts. It
covers three classes.

- `Doc2Vec` (`Code/Classes/Doc2Vec.py`). It deduplicates the input rows by
  `text_index`, tags each document with its position, infers one vector per
  row, and saves the vectors under the default name
  `Doc2Vec - {dimensions} dimensions{_b?}.joblib`.
- `SBERT` (`Code/Classes/SBERT.py`). It deduplicates the rows the same way,
  encodes one vector per row, works out the embedding width with a fixed
  fallback, and saves the vectors under `SBERT - {model}{tag}.joblib`.
- `Embeddings` (`Code/Classes/Embeddings.py`). It reads the model, the type
  and the stop-word flag back out of such a file name, and loads the file at
  most once.

Between them the classes hold a small string codec. The encoders write a
name and `Embeddings._clean_name` decodes it. The decoder:

1. deletes every `.joblib`;
2. strips a trailing `_b` and sets a flag;
3. deletes every space and every `dimensions`;
4. splits once at the first `-`.

The main result is a round trip. The decoder recovers what each encoder wrote
whenever the embedded dimension text or model name is *name-safe*: it holds no
space, no `.joblib` and no `dimensions`. The model shows one extra condition
for SBERT. An untagged model name must not itself end in `_b`.

Modules, one file each:

- `Wrappers` (`wrappers.dfy`): `Option` and `Result`.
- `Text` (`text.dfy`): the Python string operations the code relies on.
  - `str.replace(p, "")` is `RemoveAll`, a left-to-right deletion of
    non-overlapping occurrences.
  - `str.split(c, 1)` is `SplitOnce`.
  - `str.split()` is `Words`.
  - The whitespace `int()` skips around its digits is `IsIntSpace`. It is
    `str.isspace` without the ASCII separators U+001C to U+001F.
  - `str(int)` is `IntToString`. Which strings `int()` accepts is
    `IsIntLiteral`.
- `Frames` (`frames.dfy`): the rows of the input data frame, the text column
  each `stop_words` setting selects, and `drop_duplicates` on `text_index`.
- `FileNames` (`file_names.dfy`): the logic both `save_docs` methods share.
  That is the default-name shape, the `.joblib` normalisation, the fallback
  for a missing name, and `directory/name`.
- `EmbeddingFiles` (`embeddings.dfy`): the `Embeddings` class.
- `Doc2VecEncoder` (`doc2vec.dfy`) and `SbertEncoder` (`sbert.dfy`): the two
  encoder classes. Each method is a pure function from the object's
  attributes to its new attributes. An attribute that is not yet assigned is
  `None`, and a Python `AttributeError` or `ValueError` is an `Err`.
- `NameRoundTrip` (`round_trip.dfy`): decoding inverts encoding.

External calls become function parameters:

- gensim's `infer_vector` is `infer`;
- the sentence transformer's `encode` is `encode`;
- the object `joblib.load` returns is `read`.

## Model

| member | source | states |
|---|---|---|
| `Frames.DropDuplicates` | Code/Classes/Doc2Vec.py:7 | `drop_duplicates(subset = "text_index")` with `keep = "first"`. The result has one row per key of the input and each row is that key's first row. Rows appear in the order their keys were first seen. |
| `Frames.DropDuplicatesIdempotent` | Code/Classes/SBERT.py:9 | Deduplicating an already deduplicated frame changes nothing. |
| `Frames.DropDuplicatesOfDistinct` | Code/Classes/SBERT.py:9 | A frame whose keys are all distinct is returned unchanged. |
| `Frames.DocumentsColumn` | Code/Classes/Doc2Vec.py:10-13 | The column is `text_preprocessed` exactly when `stop_words` is set, and `text_no_stop` exactly when it is not. |
| `Text.RemoveAll` | Code/Classes/Embeddings.py:12-18 | `str.replace(p, "")`, scanning left to right and deleting non-overlapping occurrences. Its own contract gives only that the result is no longer than the input. What it deletes is stated by `Text.RemoveAllAtOccurrence`, `Text.RemoveAllUnchangedIff`, `Text.RemoveAllConcat`, `Text.RemoveCharLeavesNone` and `Text.RemoveAllKeepsAbsent`. |
| `Text.RemoveAllAtOccurrence` | Code/Classes/Embeddings.py:12 | Every occurrence of `.joblib` is deleted, wherever it sits. For any text `a + p + b` with a border-free pattern `p` (such as `.joblib`), the result is the deletion in `a` followed by the deletion in `b`. |
| `Text.RemoveAllUnchangedIff` | Code/Classes/Embeddings.py:18 | `replace(p, "")` leaves the string unchanged iff `p` does not occur in it. |
| `Text.RemoveAllConcat` | Code/Classes/Embeddings.py:18 | Deleting a pattern acts piece by piece on a concatenation, provided no occurrence crosses the seam. |
| `Text.RemoveCharLeavesNone` | Code/Classes/Embeddings.py:18 | After `replace(" ", "")` no space is left. |
| `Text.RemoveAllKeepsAbsent` | Code/Classes/Embeddings.py:18 | Deleting `dimensions` cannot bring back a character that was absent, such as the removed spaces. |
| `Text.SplitOnce` | Code/Classes/Embeddings.py:19 | `split("-", 1)` yields two parts iff the string contains `-`. The first part holds no `-`, and first part + `-` + second part is the string. |
| `Text.SplitOnceAt` | Code/Classes/Embeddings.py:19 | Splitting `a + "-" + b` with a hyphen-free `a` gives back exactly `a` and `b`. The second part may keep later hyphens. |
| `EmbeddingFiles.TrailingSegment` | Code/Classes/Embeddings.py:11 | `re.search(r'[^/]+$', path)` matches iff the path is non-empty and does not end in `/`. The match is the maximal `/`-free suffix. |
| `EmbeddingFiles.StripFlag` | Code/Classes/Embeddings.py:13-17 | The flag is set iff the name ends in `_b`. In that case exactly those two characters go; otherwise the name is unchanged. |
| `EmbeddingFiles.Squash` | Code/Classes/Embeddings.py:18 | After the two deletions no space is left, and the string is no longer than before. |
| `EmbeddingFiles.CleanName` | Code/Classes/Embeddings.py:10-19 | Decoding succeeds iff the squashed name holds a `-`, and otherwise raises the unpack error. On success the model holds no `-`, and model + `-` + type is the squashed name. Neither part holds a space, and the flag is the `_b` test. |
| `EmbeddingFiles.FlagMeansTrailingMarker` | Code/Classes/Embeddings.py:12-17 | The stop-word flag records whether the name, with every `.joblib` deleted, ends in `_b`. |
| `EmbeddingFiles.New` | Code/Classes/Embeddings.py:6-11 | The constructor fails first when the path has no trailing segment, and then when the name has no hyphen. On success it stores the path as given and the parts decoded from the name, with no data loaded. |
| `EmbeddingFiles.PartsIgnorePath` | Code/Classes/Embeddings.py:11-12 | The segment read from the path is overwritten, so two objects built from different paths and the same name differ only in their path. |
| `EmbeddingFiles.Load` | Code/Classes/Embeddings.py:21-32 | `load` returns at once when `data` is set, whether to vectors or to the `False` of a failed load. Otherwise it stores what was read. |
| `EmbeddingFiles.LoadIdempotent` | Code/Classes/Embeddings.py:22-23 | Loading twice equals loading once, and the second read is never consulted. |
| `Frames.Texts` | Code/Classes/SBERT.py:21 | `self.data[self.documents_col]` gives one text per row, in row order. Text `i` is row `i`'s field in the chosen column. |
| `Doc2VecEncoder.New` | Code/Classes/Doc2Vec.py:6-7 | The object keeps the first row of every `text_index`, and nothing is tagged or encoded yet. |
| `Doc2VecEncoder.TagDocs` | Code/Classes/Doc2Vec.py:9-14 | There is one tagged document per row. Document `i` carries the tag list `[i]` and the whitespace split of row `i`'s text in the chosen column. Nothing else changes. |
| `Text.Words` | Code/Classes/Doc2Vec.py:14 | `split()` with no argument gives only non-empty words that hold no whitespace. `Text.WordsJoinRoundTrip` states that it inverts a single-space join. |
| `Text.WordsJoinRoundTrip` | Code/Classes/Doc2Vec.py:14 | `split()` gives back the words that a single-space join of non-empty, spaceless words was built from. |
| `Doc2VecEncoder.DocumentEncode` | Code/Classes/Doc2Vec.py:16-22 | Encoding fails with `ValueError` when `int(dimensions)` fails, and then on the missing `tagged_docs`. Otherwise it records `dimensions` and gives one vector per row, in row order, inferred from that row's words. |
| `Doc2VecEncoder.EncodeReadsTaggedWords` | Code/Classes/Doc2Vec.py:14-22 | After tagging, vector `i` is inferred from exactly the words of tagged document `i`. |
| `Text.IntToStringIsIntLiteral` | Code/Classes/Doc2Vec.py:19 | `int(str(n))` accepts the text `str` writes for any integer, ignoring CPython's digit limit. |
| `Text.IsIntLiteral` | Code/Classes/Doc2Vec.py:19 | The texts `int(s)` accepts: optional surrounding whitespace of the kind `int` skips, an optional sign, then ASCII digits with single underscores between them. Text without any digit, such as `""` or blank text, is rejected. |
| `Text.SeparatorBeforeDigitsRejected` | Code/Classes/Doc2Vec.py:19 | A separator U+001C to U+001F before the digits is whitespace to `str.isspace`, but `int` rejects the text. |
| `Doc2VecEncoder.IntConvertible` | Code/Classes/Doc2Vec.py:19 | `int(dimensions)` succeeds exactly when the text the dimension renders to is an integer literal. So it always succeeds for an integer. |
| `Text.IntToString` | Code/Classes/Doc2Vec.py:31 | `str(n)` is a non-empty run of decimal digits, with a leading `-` exactly when `n` is negative. `Text.IntToStringRoundTrip` reads it back. |
| `Doc2VecEncoder.Render` | Code/Classes/Doc2Vec.py:31 | `{self.dimensions}` in the f-string. An integer dimension renders as text that `int` accepts and that reads back as the integer. |
| `Text.IntToStringRoundTrip` | Code/Classes/Doc2Vec.py:31 | `int(str(n)) == n`, so the dimension text in a default name reads back as the dimension. |
| `Doc2VecEncoder.DefaultName` | Code/Classes/Doc2Vec.py:27-31 | The default name starts with `Doc2Vec - ` followed by the dimension text, and ends in `.joblib`. It ends in `_b.joblib` exactly when `stop_words` is false. |
| `FileNames.DescribedName` | Code/Classes/Doc2Vec.py:31 | Both encoders' default names have the shape `{head} - {body}{tail}{mark}.joblib`. Such a name starts with `{head} - {body}` and ends with tail, mark and `.joblib`. |
| `FileNames.WithExtension` | Code/Classes/Doc2Vec.py:32-33 | The result always ends in `.joblib`. It is the name itself iff the name already ends so, and otherwise it is the name with `.joblib` appended once. |
| `FileNames.WithExtensionIdempotent` | Code/Classes/SBERT.py:51-52 | Normalising the extension twice equals normalising it once. |
| `FileNames.NameOrDefault` | Code/Classes/Doc2Vec.py:30-31 | Both `None` and the empty name fall back to the default. Any other name is kept. |
| `FileNames.JoinPath` | Code/Classes/Doc2Vec.py:35 | The path is the directory, one `/`, then the name. |
| `Doc2VecEncoder.FileName` | Code/Classes/Doc2Vec.py:30-33 | The file name ends in `.joblib`. It is the default name when no name is given, and otherwise the given name with `.joblib` added only if missing. |
| `Doc2VecEncoder.SaveDocs` | Code/Classes/Doc2Vec.py:26-36 | Saving succeeds iff the object has been encoded. Before that it fails on `dimensions` when it must build the default name, and on `document_embeddings` otherwise. The written path is `directory/file`, ends in `.joblib` and holds the encoded vectors. |
| `SbertEncoder.New` | Code/Classes/SBERT.py:8-10 | The object keeps the first row of every `text_index`. `pb_length` is the number of kept rows, which is the number of distinct keys. |
| `SbertEncoder.FallbackDimensions` | Code/Classes/SBERT.py:34-38 | The fallback width is 384 exactly for `all-MiniLM-L6-v2` and 768 for every other model. |
| `SbertEncoder.DocumentEncode` | Code/Classes/SBERT.py:12-38 | There is one embedding per row, in row order, of that row's text in the chosen column. The width is that of the first embedding, or the fallback when there are no rows. The model is recorded. |
| `SbertEncoder.EncodeCountsProgressBar` | Code/Classes/SBERT.py:10-24 | Encoding a freshly built object yields exactly `pb_length` embeddings. |
| `SbertEncoder.DefaultName` | Code/Classes/SBERT.py:49-50 | The default name starts with `SBERT - ` followed by the model name, and ends with the tag followed by `.joblib`. |
| `SbertEncoder.FileName` | Code/Classes/SBERT.py:49-52 | The file name ends in `.joblib`. It is the normalised default name when no name is given, and otherwise the given name with `.joblib` added only if missing. |
| `SbertEncoder.SaveDocs` | Code/Classes/SBERT.py:44-56 | Saving succeeds iff the object has been encoded. Before that it fails on `model` when it must build the default name, and on `document_embeddings` otherwise. The written path is `directory/file`, ends in `.joblib` and holds the encoded vectors. |
| `NameRoundTrip.DescribedNameRoundTrip` | Code/Classes/Embeddings.py:12-19 | The decoder turns `{head} - {body}{tail}{mark}.joblib` back into `(head, body, mark == "_b")`. This holds when the head is free of space, `.`, `-` and `d`, the body is name-safe, the tail is empty or ` dimensions`, and the mark is empty or `_b` and cannot be confused with the body's ending. |
| `NameRoundTrip.Doc2VecNameRoundTrip` | Code/Classes/Doc2Vec.py:31 | Decoding the default Doc2Vec name for name-safe dimension text gives `("Doc2Vec", dims, not stop_words)`. |
| `NameRoundTrip.Doc2VecIntNameRoundTrip` | Code/Classes/Doc2Vec.py:31 | For an integer dimension, decoding gives its decimal text, and `int` of that text is the dimension again. |
| `NameRoundTrip.Doc2VecDefaultNameExample` | Code/Classes/Doc2Vec.py:31 | `Doc2Vec - 100 dimensions_b.joblib` decodes to `("Doc2Vec", "100", true)`. |
| `NameRoundTrip.SbertNameRoundTrip` | Code/Classes/SBERT.py:50 | Decoding `SBERT - {model}{tag}.joblib` gives `("SBERT", model, tag == "_b")` for the tags `""` and `"_b"`. This needs a name-safe model that, when the tag is empty, does not end in `_b`. |
| `NameRoundTrip.SbertUntaggedFlagSuffixMisread` | Code/Classes/Embeddings.py:13-14 | Without a tag, a model named `m_b` decodes as model `m` with the stop-word flag set. So the extra SBERT condition is needed. |
| `NameRoundTrip.SbertFlaggedTagMisread` | Code/Classes/Embeddings.py:13-19 | When `m + t` is name-safe (no space, `.joblib` or `dimensions`), model `m` with the tag `t + "_b"` decodes to type `m + t` with the flag set. The tag's `_b` is dropped and the rest of the tag is read as part of the type. |
| `NameRoundTrip.SbertSpanningTagLost` | Code/Classes/Embeddings.py:18-19 | The deletion of `dimensions` can span the model and the tag. A model and tag that together spell `dimensions`, such as `dimen` and `sions`, decode to type `""` with no flag, so none of the tag reaches the type. |
| `NameRoundTrip.SbertSavedFileReopens` | Code/Classes/SBERT.py:49-54 | Reopening the file an encoded SBERT object saved under its default name, with the path and name it was written to, gives back `"SBERT"`, the model and the tag's flag, with nothing loaded yet. |
| `NameRoundTrip.Doc2VecSavedFileReopens` | Code/Classes/Doc2Vec.py:30-35 | The same for Doc2Vec with an integer dimension. The type read back is the dimension's decimal text. |

## Left out

- Inference is a foreign call and appears only as a parameter: gensim's `infer_vector` is `infer`, and the sentence transformer's `encode` is `encode`. Building and training the models is not modelled at all: gensim's `D2V(...)`, `build_vocab` and `train`, and `SentenceTransformer(self.model)`. Their effect on the vectors is folded into those parameters. Their hyperparameters are not modelled either, including `window`, `epochs`, `dm` and the `iterations` argument.
- `Doc2VecEncoder.DocumentEncode`: gensim's own exceptions from `D2V(...)`, `build_vocab` and `train` are not modelled. Where gensim raises, the model returns `Ok`. One case is a `RuntimeError` when no word reaches gensim's default `min_count`, for example for an empty frame. The success condition covers only the `int(dimensions)` failure and the missing `tagged_docs`.
- `Doc2VecEncoder.DocumentEncode`: `infer` is taken as a deterministic function of a row's words. So in the model, rows with equal text get equal vectors and encoding again gives the same vectors. gensim's `infer_vector` draws from the model's random state on every call, so in the source neither need hold.
- `SbertEncoder.DocumentEncode`: the errors `SentenceTransformer(self.model)` raises are not modelled. An unknown model name or an unreachable model hub makes the source raise, and the model still encodes with the given `encode`.
- `Doc2VecEncoder.DocumentEncode`: `int(dimensions)` is modelled for ASCII digits only. Python also accepts other Unicode decimal digits, and the model reports those as `ValueError`. The model also does not check whether gensim accepts the resulting vector size.
- `Doc2VecEncoder.TagDocs`: never fails on a missing column, because every `Frames.Row` holds `text_index`, `text_preprocessed` and `text_no_stop`. The same holds for `SbertEncoder.DocumentEncode`, `Doc2VecEncoder.DocumentEncode` and `Frames.DropDuplicates`. The source raises `KeyError` when the frame lacks one of them, for example `text_no_stop` when preprocessing was run without stop words.
- `Embeddings.scale` is left out. It is sklearn's floating-point `StandardScaler`.
- File I/O is left out: `open`, `joblib.dump`, `joblib.load` and `file.close`. The exception inside `load` is reduced to its result, the `LoadFailed` payload. The object read is the `read` parameter, and the printed message is dropped.
- `tqdm` progress bars, `print`, `del model` and `gc.collect` are left out. They have no effect on the attributes.
- `np.array(document_embeddings)` is taken as the identity on the list of vectors. The try/except around `len(self.document_embeddings[0])` is modelled as a test for an empty row set.
- `Text.IntToStringIsIntLiteral`: holds for integers of any size, because the digit limit on integer–text conversion is not modelled. CPython 3.11 and later by default reject `str(n)` and `int(s)` beyond 4300 digits with `ValueError`. `Text.IntToStringRoundTrip` ignores the limit too.
- Partial updates before an exception are left out. For example `document_encode` assigns `self.dimensions` before `int(dimensions)` or `build_vocab` can raise. The model returns `Err` and drops the partially updated object.
- The repository's distance, nearest-predecessor matching and cluster-accuracy logic is not in these three classes and is not part of this model.
- `NameRoundTrip.SbertNameRoundTrip`: proved only for the tags `""` and `"_b"`, the two the training script passes. For a tag `t + "_b"` where the model joined with `t` is name-safe, `NameRoundTrip.SbertFlaggedTagMisread` states the decode: the flag is set and `t` ends up at the end of the type. Nothing is promised for other tags. The deletions of spaces, `.joblib` and `dimensions` then act on the model and the tag together, and an occurrence can span both. For example, the model `dimen` with the tag `sions` decodes to an empty type, as `NameRoundTrip.SbertSpanningTagLost` states.
- `NameRoundTrip.Doc2VecSavedFileReopens`: stated for integer dimensions. For text dimensions, `NameRoundTrip.Doc2VecNameRoundTrip` states the decode under the name-safety condition.
