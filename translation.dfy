/** `translate_text`: resolve both language names, cut the text into
    windows of `max_length` characters, translate each window on its own
    and join the translations with single spaces. */
module Translation {
  import opened Outcomes
  import opened Strings
  import opened Languages
  import opened Chunking

  /** `Translator(from_lang=..., to_lang=...)`. */
  datatype Translator = Translator(fromLang: string, toLang: string)

  /** The `k`-th window of `max_length` characters of `text`, cut directly
      at offset `k * max_length`. */
  function Window(text: string, k: nat): string
    requires k * MaxLength < |text|
  {
    text[k * MaxLength .. Min((k + 1) * MaxLength, |text|)]
  }

  /** `[translator.translate(chunk) for chunk in text_chunks]`; the
      translation service itself is the parameter `translate`. */
  function TranslatedChunks(tr: Translator, text: string, translate: (Translator, string) -> string): (r: seq<string>)
    ensures |r| == |Chunks(text)|
    ensures forall k :: 0 <= k < |r| ==>
      r[k] == translate(tr, Window(text, k))
  {
    var chunks := Chunks(text);
    seq(|chunks|, k requires 0 <= k < |chunks| => translate(tr, chunks[k]))
  }

  /** `translate_text(text, source_language_name, target_language_name)`.
      The source name is looked up first, then the target name; either
      lookup raises `IndexError` before any text is cut or translated. */
  function TranslateText(text: string, sourceName: string, targetName: string,
                         translate: (Translator, string) -> string): Result<string, LookupError>
  {
    match LookupCode(sourceName)
    case Failure(e) => Failure(e)
    case Success(source) =>
      match LookupCode(targetName)
      case Failure(e) => Failure(e)
      case Success(target) =>
        Success(Join(" ", TranslatedChunks(Translator(source, target), text, translate)))
  }

  /** Translation fails exactly when one of the two names is not a
      display name of `language_dict`. */
  lemma TranslateFailsIff(text: string, sourceName: string, targetName: string,
                          translate: (Translator, string) -> string)
    ensures TranslateText(text, sourceName, targetName, translate).Failure?
      <==> sourceName !in Names(LanguageDict) || targetName !in Names(LanguageDict)
  {
    LookupFailsIff(LanguageDict, sourceName);
    LookupFailsIff(LanguageDict, targetName);
  }

  /** Empty text translates to the empty string whatever the translator
      does: it is never called. */
  lemma TranslateEmptyText(sourceName: string, targetName: string,
                           translate: (Translator, string) -> string)
    requires sourceName in Names(LanguageDict) && targetName in Names(LanguageDict)
    ensures TranslateText("", sourceName, targetName, translate) == Success("")
  {
    TranslateFailsIff("", sourceName, targetName, translate);
    ChunkCountIsCeiling("");
  }

  /** The result depends on the translator only through the windows of the
      text: two translators that agree on every window give the same result. */
  lemma TranslateSeesOnlyChunks(text: string, sourceName: string, targetName: string,
                                t1: (Translator, string) -> string, t2: (Translator, string) -> string)
    requires forall tr, c :: c in Chunks(text) ==> t1(tr, c) == t2(tr, c)
    ensures TranslateText(text, sourceName, targetName, t1) == TranslateText(text, sourceName, targetName, t2)
  {
    if TranslateText(text, sourceName, targetName, t1).Success? {
      var tr := Translator(LookupCode(sourceName).value, LookupCode(targetName).value);
      var chunks := Chunks(text);
      assert forall k :: 0 <= k < |chunks| ==> chunks[k] in chunks;
      assert TranslatedChunks(tr, text, t1) == TranslatedChunks(tr, text, t2);
    }
  }

  /** Text of at most `max_length` characters is translated in a single
      call, with no space added. */
  lemma TranslateShortText(text: string, sourceName: string, targetName: string,
                           translate: (Translator, string) -> string)
    requires 0 < |text| <= MaxLength
    requires TranslateText(text, sourceName, targetName, translate).Success?
    ensures TranslateText(text, sourceName, targetName, translate).value
      == translate(Translator(LookupCode(sourceName).value, LookupCode(targetName).value), text)
  {
    var tr := Translator(LookupCode(sourceName).value, LookupCode(targetName).value);
    ChunksSplit(text);
    assert text[..|text|] == text;
    ChunkCountIsCeiling(text[|text|..]);
    assert Chunks(text) == [text];
    assert TranslatedChunks(tr, text, translate) == [translate(tr, text)];
  }

  /** Windowed translation: when the text splits after a whole number of
      windows, its translation is the two parts' translations with exactly
      one space between them. */
  lemma TranslateAppend(a: string, b: string, sourceName: string, targetName: string,
                        translate: (Translator, string) -> string)
    requires |a| % MaxLength == 0 && a != [] && b != []
    requires TranslateText(a, sourceName, targetName, translate).Success?
    ensures TranslateText(a + b, sourceName, targetName, translate)
      == Success(TranslateText(a, sourceName, targetName, translate).value + " "
                 + TranslateText(b, sourceName, targetName, translate).value)
  {
    var tr := Translator(LookupCode(sourceName).value, LookupCode(targetName).value);
    ChunksAppend(a, b);
    ChunkCountIsCeiling(a);
    ChunkCountIsCeiling(b);
    var ca, cb := Chunks(a), Chunks(b);
    var ta, tb := TranslatedChunks(tr, a, translate), TranslatedChunks(tr, b, translate);
    var t := TranslatedChunks(tr, a + b, translate);
    assert |t| == |ta| + |tb|;
    forall k | 0 <= k < |t| ensures t[k] == (ta + tb)[k] {
      assert t[k] == translate(tr, (ca + cb)[k]);
      if k < |ta| {
        assert ta[k] == translate(tr, ca[k]);
      } else {
        assert tb[k - |ta|] == translate(tr, cb[k - |ta|]);
      }
    }
    assert t == ta + tb;
    JoinAppend(" ", ta, tb);
  }

  /** The output holds the spaces of the translated windows plus exactly
      one separator between each pair of neighbouring windows. */
  lemma TranslateSeparators(text: string, sourceName: string, targetName: string,
                            translate: (Translator, string) -> string)
    requires text != []
    requires TranslateText(text, sourceName, targetName, translate).Success?
    ensures var tr := Translator(LookupCode(sourceName).value, LookupCode(targetName).value);
      Count(TranslateText(text, sourceName, targetName, translate).value, ' ')
        == CountAll(TranslatedChunks(tr, text, translate), ' ') + |Chunks(text)| - 1
  {
    var tr := Translator(LookupCode(sourceName).value, LookupCode(targetName).value);
    ChunkCountIsCeiling(text);
    JoinSpaceCount(TranslatedChunks(tr, text, translate));
  }
}
