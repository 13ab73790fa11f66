/** The decoder of `Embeddings` reads back what the encoders' default file
    names wrote, as long as the embedded model name or dimension text cannot
    be confused with the name's own punctuation. */
module NameRoundTrip {

  import opened Wrappers
  import opened Text
  import opened FileNames
  import opened EmbeddingFiles
  import Doc2VecEncoder
  import SbertEncoder

  /** Text that survives the decoder untouched when embedded in a default name:
      no space, no `.joblib`, no `dimensions`. */
  predicate NameSafe(s: string) {
    ' ' !in s && !Occurs(Extension, s) && !Occurs(DimensionsWord, s)
  }

  // ---------------------------------------------------------------------------
  // Facts about the fixed pieces
  // ---------------------------------------------------------------------------

  lemma PatternsBorderFree()
    ensures BorderFree(Extension) && BorderFree(DimensionsWord)
  {
    UniqueHeadBorderFree(Extension);
    UniqueHeadBorderFree(DimensionsWord);
  }

  /** `!Occurs` survives concatenation across a seam the pattern cannot cross. */
  lemma NotOccursConcat(a: string, b: string, p: string)
    requires p != [] && !Occurs(p, a) && !Occurs(p, b) && NoStraddle(a, b, p)
    ensures !Occurs(p, a + b)
  {
    RemoveAllSeparated(a, b, p);
    RemoveAllUnchangedIff(a + b, p);
  }

  /** Removing a border-free pattern that ends the string, and occurs nowhere
      before it, leaves exactly what precedes it. */
  lemma RemoveTrailing(x: string, p: string)
    requires p != [] && BorderFree(p) && !Occurs(p, x)
    ensures RemoveAll(x + p, p) == x
  {
    assert StartsWith(p, p);
    LeadingPatternNoStraddle(x, p, p);
    RemoveAllConcat(x, p, p);
    RemoveAllAbsent(x, p);
    RemoveAllSelf(p);
  }

  /** Removing spaces acts piece by piece. */
  lemma RemoveSpacesConcat(a: string, b: string)
    ensures RemoveAll(a + b, " ") == RemoveAll(a, " ") + RemoveAll(b, " ")
  {
    SingleCharNoStraddle(a, b, ' ');
    RemoveAllConcat(a, b, " ");
  }

  /** `"X - " + body` with spaces removed is `"X-" + body` for a spaceless `X`
      and `body`. */
  lemma SquashSpaces(head: string, body: string)
    requires ' ' !in head && ' ' !in body
    ensures RemoveAll(head + " - " + body, " ") == head + "-" + body
  {
    AbsentHeadNotOccurs(" ", head);
    AbsentHeadNotOccurs(" ", body);
    RemoveAllAbsent(head, " ");
    RemoveAllAbsent(body, " ");
    assert RemoveAll(" ", " ") == [];
    assert RemoveAll("- ", " ") == "-";
    assert RemoveAll(" - ", " ") == "-";
    RemoveSpacesConcat(head, " - ");
    RemoveSpacesConcat(head + " - ", body);
  }

  /** A name ending in a space followed by `m` ends in `_b` only if `m` does. */
  lemma NoFlagAfterSpace(a: string, m: string)
    requires a != [] && a[|a| - 1] == ' ' && !EndsWith(m, FlagSuffix)
    ensures !EndsWith(a + m, FlagSuffix)
  {
    var s := a + m;
    if |s| >= 2 {
      var t := s[|s| - 2..];
      if |m| >= 2 {
        assert t == m[|m| - 2..];
      } else if |m| == 1 {
        assert t[0] == ' ';
      } else {
        assert t[1] == ' ';
      }
    }
  }

  /** The head `X-` and a hyphen-free `X` split back into `X` and the body. */
  lemma SplitHead(head: string, body: string)
    requires '-' !in head
    ensures SplitOnce(head + "-" + body, '-') == Some((head, body))
  {
    SplitOnceAt(head, body, '-');
  }

  lemma DimensionsSpaceless()
    ensures ' ' !in DimensionsWord
  {
    assert forall k | 0 <= k < |DimensionsWord| :: DimensionsWord[k] != ' ';
  }

  /** Removing the single space that starts `" " + t` leaves `t`. */
  lemma DropLeadingSpace(t: string)
    requires ' ' !in t
    ensures RemoveAll(" " + t, " ") == t
  {
    var s := " " + t;
    assert StartsWith(s, " ");
    assert s[1..] == t;
    AbsentHeadNotOccurs(" ", t);
    RemoveAllAbsent(t, " ");
  }

  // ---------------------------------------------------------------------------
  // The shape both encoders write
  // ---------------------------------------------------------------------------

  /** What the decoder needs of the pieces of `DescribedName(head, body, tail,
      mark)`: a head free of the decoder's punctuation, a `NameSafe` body, a
      tail that is nothing or ` dimensions` (spelled `" " + word`), a mark
      that is nothing or `_b`, and no `_b` the decoder could mistake for the
      mark. `word` is always `dimensions`; it is a parameter so that the stage
      lemmas apply `RemoveAll` to symbolic text only, since on text that is
      entirely constant the verifier evaluates `RemoveAll` character by
      character and runs out of resources. */
  predicate Decodable(head: string, body: string, word: string, tail: string, mark: string) {
    && ' ' !in head && '.' !in head && '-' !in head && 'd' !in head
    && NameSafe(body)
    && word == DimensionsWord
    && (tail == "" || tail == " " + word)
    && (mark == "" || mark == FlagSuffix)
    && (tail == "" && mark == "" ==> !EndsWith(body, FlagSuffix))
  }

  function Stem(head: string, body: string, tail: string): string {
    head + " - " + body + tail
  }

  /** Stage one: only the final `.joblib` was there, and it goes. */
  lemma ExtensionStage(head: string, body: string, word: string, tail: string, mark: string)
    requires Decodable(head, body, word, tail, mark)
    ensures RemoveAll(DescribedName(head, body, tail, mark), Extension) == Stem(head, body, tail) + mark
  {
    var a := head + " - ";
    AbsentHeadNotOccurs(Extension, a);
    SeparatorNoStraddle(a, body, Extension);
    NotOccursConcat(a, body, Extension);
    AbsentHeadNotOccurs(Extension, tail);
    if tail == [] {
      assert a + body + tail == a + body;
    } else {
      SeparatorNoStraddle(a + body, tail, Extension);
    }
    NotOccursConcat(a + body, tail, Extension);
    AbsentHeadNotOccurs(Extension, mark);
    if mark == [] {
      assert a + body + tail + mark == a + body + tail;
    } else {
      SeparatorNoStraddle(a + body + tail, mark, Extension);
    }
    NotOccursConcat(a + body + tail, mark, Extension);
    PatternsBorderFree();
    RemoveTrailing(a + body + tail + mark, Extension);
  }

  /** Stage two: the `_b` marker is read exactly when it was written. */
  lemma FlagStage(head: string, body: string, word: string, tail: string, mark: string)
    requires Decodable(head, body, word, tail, mark)
    ensures StripFlag(Stem(head, body, tail) + mark) == (Stem(head, body, tail), mark == FlagSuffix)
  {
    var stem := Stem(head, body, tail);
    var x := stem + mark;
    if mark == FlagSuffix {
      assert x[|x| - 2..] == FlagSuffix;
    } else {
      assert x == stem;
      if tail == [] {
        assert stem == (head + " - ") + body;
        NoFlagAfterSpace(head + " - ", body);
      } else {
        assert stem[|stem| - 2..] == word[|word| - 2..];
      }
    }
  }

  /** Stage three, spaces: `{head} - {body}[ {word}]` becomes `{head}-{body}[{word}]`. */
  lemma SpacesStage(head: string, body: string, word: string, tail: string)
    requires ' ' !in head && ' ' !in body && ' ' !in word
    requires tail == "" || tail == " " + word
    ensures RemoveAll(Stem(head, body, tail), " ") == head + "-" + body + (if tail == "" then "" else word)
  {
    SquashSpaces(head, body);
    if tail == [] {
      assert Stem(head, body, tail) == head + " - " + body;
    } else {
      RemoveSpacesConcat(head + " - " + body, " " + word);
      DropLeadingSpace(word);
    }
  }

  /** Stage three, `dimensions`: only the written word goes. */
  lemma DimensionsStage(head: string, body: string, word: string, hasWord: bool)
    requires 'd' !in head && NameSafe(body) && word == DimensionsWord
    ensures RemoveAll(head + "-" + body + (if hasWord then word else ""), DimensionsWord)
            == head + "-" + body
  {
    var h := head + "-";
    AbsentHeadNotOccurs(DimensionsWord, h);
    SeparatorNoStraddle(h, body, DimensionsWord);
    NotOccursConcat(h, body, DimensionsWord);
    if hasWord {
      PatternsBorderFree();
      RemoveTrailing(h + body, DimensionsWord);
    } else {
      assert h + body + "" == h + body;
      RemoveAllAbsent(h + body, DimensionsWord);
    }
  }

  /** The decoder inverts the shape both encoders write. */
  lemma DescribedNameRoundTrip(head: string, body: string, word: string, tail: string, mark: string)
    requires Decodable(head, body, word, tail, mark)
    ensures CleanName(DescribedName(head, body, tail, mark)) == Ok(NameParts(head, body, mark == FlagSuffix))
  {
    var stem := Stem(head, body, tail);
    ExtensionStage(head, body, word, tail, mark);
    FlagStage(head, body, word, tail, mark);
    DimensionsSpaceless();
    SpacesStage(head, body, word, tail);
    DimensionsStage(head, body, word, tail != "");
    assert Squash(stem) == head + "-" + body;
    SplitHead(head, body);
  }

  // ---------------------------------------------------------------------------
  // Doc2Vec
  // ---------------------------------------------------------------------------

  /** `Doc2Vec - {dims} dimensions{_b?}.joblib` decodes to `("Doc2Vec", dims, _b
      present)` for dimension text that is `NameSafe`. */
  lemma Doc2VecNameRoundTrip(dims: string, stopWords: bool)
    requires NameSafe(dims)
    ensures CleanName(Doc2VecEncoder.DefaultName(Doc2VecEncoder.TextDims(dims), stopWords))
            == Ok(NameParts("Doc2Vec", dims, !stopWords))
  {
    var stops := if stopWords then "" else FlagSuffix;
    DescribedNameRoundTrip("Doc2Vec", dims, DimensionsWord, " " + DimensionsWord, stops);
  }

  /** The default name for an integer dimension decodes to its decimal text,
      and `int` of that text is the dimension again. */
  lemma Doc2VecIntNameRoundTrip(dims: int, stopWords: bool)
    ensures var r := CleanName(Doc2VecEncoder.DefaultName(Doc2VecEncoder.IntDims(dims), stopWords));
            && r == Ok(NameParts("Doc2Vec", IntToString(dims), !stopWords))
            && ParseInt(r.value.typ) == dims
  {
    var s := IntToString(dims);
    AbsentHeadNotOccurs(Extension, s);
    AbsentHeadNotOccurs(DimensionsWord, s);
    assert ' ' !in s;
    Doc2VecNameRoundTrip(s, stopWords);
    assert Doc2VecEncoder.DefaultName(Doc2VecEncoder.IntDims(dims), stopWords)
        == Doc2VecEncoder.DefaultName(Doc2VecEncoder.TextDims(s), stopWords);
    IntToStringRoundTrip(dims);
  }

  /** `str(100)` is `"100"`. Like the example below, it takes the number as a
      parameter fixed by its precondition: stated on the constant itself, the
      decoder's `RemoveAll` calls would all be on constant text, which the
      verifier evaluates character by character. */
  lemma HundredText(n: int)
    requires n == 100
    ensures IntToString(n) == "100"
  {
    assert NatToString(n / 10) == "10";
  }

  /** The default name for 100 dimensions without stop words,
      `Doc2Vec - 100 dimensions_b.joblib`, decodes to `("Doc2Vec", "100", true)`.
      The parameter `n` is 100; see `HundredText` for why it is not a constant. */
  lemma Doc2VecDefaultNameExample(n: int)
    requires n == 100
    ensures CleanName(Doc2VecEncoder.DefaultName(Doc2VecEncoder.IntDims(n), false))
            == Ok(NameParts("Doc2Vec", "100", true))
  {
    Doc2VecIntNameRoundTrip(n, false);
    HundredText(n);
  }

  // ---------------------------------------------------------------------------
  // SBERT
  // ---------------------------------------------------------------------------

  /** `SBERT - {model}{tag}.joblib` decodes to `("SBERT", model, tag == "_b")`
      for the two tags the training script uses, provided the model name is
      `NameSafe` and, with the empty tag, does not itself end in `_b`. */
  lemma SbertNameRoundTrip(model: string, tag: string)
    requires NameSafe(model)
    requires tag == "" || tag == FlagSuffix
    requires tag == "" ==> !EndsWith(model, FlagSuffix)
    ensures CleanName(SbertEncoder.DefaultName(model, tag))
            == Ok(NameParts("SBERT", model, tag == FlagSuffix))
  {
    DescribedNameRoundTrip("SBERT", model, DimensionsWord, "", tag);
  }

  /** A name free of `.joblib` and `dimensions` stays so when its last
      characters are cut off. */
  lemma NameSafePrefix(model: string, cut: string)
    requires NameSafe(model + cut)
    ensures NameSafe(model)
  {
    var s := model + cut;
    forall i | 0 <= i <= |model| - |Extension|
      ensures !OccursAt(Extension, model, i)
    {
      assert OccursAt(Extension, model, i) ==> OccursAt(Extension, s, i);
    }
    forall i | 0 <= i <= |model| - |DimensionsWord|
      ensures !OccursAt(DimensionsWord, model, i)
    {
      assert OccursAt(DimensionsWord, model, i) ==> OccursAt(DimensionsWord, s, i);
    }
    assert forall k | 0 <= k < |model| :: model[k] == s[k];
  }

  /** With no tail, a mark written into the body and one written as the mark
      give the same name. */
  lemma MarkInBody(head: string, body: string, mark: string)
    ensures DescribedName(head, body + mark, "", "") == DescribedName(head, body, "", mark)
  {
  }

  /** Without a tag, a model name that ends in `_b` loses those two characters
      and is read as trained without stop words. */
  lemma SbertUntaggedFlagSuffixMisread(model: string)
    requires NameSafe(model + FlagSuffix)
    ensures CleanName(SbertEncoder.DefaultName(model + FlagSuffix, "")) == Ok(NameParts("SBERT", model, true))
  {
    NameSafePrefix(model, FlagSuffix);
    DescribedNameRoundTrip("SBERT", model, DimensionsWord, "", FlagSuffix);
    MarkInBody("SBERT", model, FlagSuffix);
  }

  /** With no tail, the text before a mark may be moved into the body. */
  lemma TagInBody(head: string, body: string, tag: string, mark: string)
    ensures DescribedName(head, body + tag, "", mark) == DescribedName(head, body, "", tag + mark)
  {
    assert head + " - " + (body + tag) + "" + mark + Extension
        == head + " - " + body + "" + (tag + mark) + Extension;
  }

  /** Stage one for a name whose body is the word `dimensions` itself. */
  lemma WordBodyExtensionStage(head: string, w: string)
    requires ' ' !in head && '.' !in head && w == DimensionsWord
    ensures RemoveAll(head + " - " + w + Extension, Extension) == head + " - " + w
  {
    assert '.' !in w;
    AbsentHeadNotOccurs(Extension, head + " - ");
    AbsentHeadNotOccurs(Extension, w);
    SeparatorNoStraddle(head + " - ", w, Extension);
    NotOccursConcat(head + " - ", w, Extension);
    PatternsBorderFree();
    RemoveTrailing(head + " - " + w, Extension);
  }

  /** The remaining stages: no flag, and the word goes entirely. */
  lemma WordBodySquashed(head: string, w: string)
    requires ' ' !in head && 'd' !in head && w == DimensionsWord
    ensures StripFlag(head + " - " + w) == (head + " - " + w, false)
    ensures Squash(head + " - " + w) == head + "-"
  {
    var stem := head + " - " + w;
    assert stem[|stem| - 2..] == w[|w| - 2..];
    DimensionsSpaceless();
    SquashSpaces(head, w);
    AbsentHeadNotOccurs(DimensionsWord, head + "-");
    PatternsBorderFree();
    RemoveTrailing(head + "-", DimensionsWord);
  }

  /** A model and tag that together spell `dimensions` are deleted as a
      whole: nothing of either reaches the decoded type. */
  lemma SpanningWordLost(head: string, model: string, tag: string)
    requires ' ' !in head && '.' !in head && '-' !in head && 'd' !in head
    requires model + tag == DimensionsWord
    ensures CleanName(DescribedName(head, model, "", tag)) == Ok(NameParts(head, [], false))
  {
    var w := model + tag;
    TagInBody(head, model, tag, "");
    assert tag + "" == tag;
    assert DescribedName(head, model, "", tag) == head + " - " + w + Extension;
    WordBodyExtensionStage(head, w);
    WordBodySquashed(head, w);
    assert head + "-" == head + "-" + [];
    SplitHead(head, []);
  }

  /** For example, the model `dimen` with the tag `sions` gives an empty
      type: the deletion of `dimensions` spans the model and the tag. */
  lemma SbertSpanningTagLost(model: string, tag: string)
    requires model + tag == DimensionsWord
    ensures CleanName(SbertEncoder.DefaultName(model, tag)) == Ok(NameParts("SBERT", [], false))
  {
    SpanningWordLost("SBERT", model, tag);
  }

  /** Any other tag that ends in `_b` is split: the `_b` sets the flag and the
      rest of the tag is read as part of the decoded type, after the model. */
  lemma SbertFlaggedTagMisread(model: string, tag: string)
    requires NameSafe(model + tag)
    ensures CleanName(SbertEncoder.DefaultName(model, tag + FlagSuffix))
            == Ok(NameParts("SBERT", model + tag, true))
  {
    DescribedNameRoundTrip("SBERT", model + tag, DimensionsWord, "", FlagSuffix);
    TagInBody("SBERT", model, tag, FlagSuffix);
  }

  /** A path ending in `.joblib` has a last segment for `re.search` to find. */
  lemma JoblibPathHasSegment(path: string)
    requires EndsWith(path, Extension)
    ensures TrailingSegment(path).Some?
  {
    assert path[|path| - 1] == Extension[|Extension| - 1];
  }

  // ---------------------------------------------------------------------------
  // From saved file to loaded object
  // ---------------------------------------------------------------------------

  /** Reopening the file `save_docs` wrote under its default name, as the
      clustering script does with `Embeddings(directory/name, name)`, yields
      the model name and stop-word flag the encoder was given. */
  lemma SbertSavedFileReopens(s: SbertEncoder.Sbert, directory: string, tag: string)
    requires s.encoding.Some?
    requires NameSafe(s.encoding.value.model)
    requires tag == "" || tag == FlagSuffix
    requires tag == "" ==> !EndsWith(s.encoding.value.model, FlagSuffix)
    ensures var w := SbertEncoder.SaveDocs(s, directory, tag, None);
            var file := SbertEncoder.DefaultName(s.encoding.value.model, tag);
            && w.Ok?
            && New(w.value.path, file)
               == Ok(Embeddings(w.value.path, "SBERT", s.encoding.value.model, tag == FlagSuffix, None))
  {
    var model := s.encoding.value.model;
    var file := SbertEncoder.DefaultName(model, tag);
    var path := SbertEncoder.SaveDocs(s, directory, tag, None).value.path;
    JoblibPathHasSegment(path);
    SbertNameRoundTrip(model, tag);
  }

  /** The same for Doc2Vec, whose saved name records the dimensions. */
  lemma Doc2VecSavedFileReopens(d: Doc2VecEncoder.Doc2Vec, directory: string, stopWords: bool)
    requires d.encoding.Some? && d.encoding.value.dimensions.IntDims?
    ensures var w := Doc2VecEncoder.SaveDocs(d, directory, stopWords, None);
            var dims := d.encoding.value.dimensions;
            var file := Doc2VecEncoder.DefaultName(dims, stopWords);
            && w.Ok?
            && New(w.value.path, file)
               == Ok(Embeddings(w.value.path, "Doc2Vec", IntToString(dims.n), !stopWords, None))
  {
    var dims := d.encoding.value.dimensions;
    var file := Doc2VecEncoder.DefaultName(dims, stopWords);
    var path := Doc2VecEncoder.SaveDocs(d, directory, stopWords, None).value.path;
    JoblibPathHasSegment(path);
    Doc2VecIntNameRoundTrip(dims.n, stopWords);
  }
}
