/** The validation and filtering `summarize_text` does around the text
    splitter and the summarisation chain, which are both parameters here. */
module Summarization {
  import opened Outcomes
  import opened Strings

  /** `Document(page_content=...)`. */
  datatype Document = Document(pageContent: string)

  /** The three `st.error(...)` + `return None` exits, in the order they are checked. */
  datatype SummarizeError =
    | EmptyInput   // "Please enter some text to summarize."
    | NoSegments   // "Text splitting resulted in no valid segments."
    | NoDocuments  // "No valid documents were created from the text segments."

  /** `[Document(page_content=segment) for segment in text_segments if segment.strip()]`. */
  function DocumentList(segments: seq<string>): seq<Document> {
    if segments == [] then []
    else if IsBlank(segments[0]) then DocumentList(segments[1..])
    else [Document(segments[0])] + DocumentList(segments[1..])
  }

  /** `summarize_text(input_text, api_key)`: `split` stands for
      `CharacterTextSplitter().split_text` and `run` for the map-reduce
      chain's `run` on a model built with the key. */
  function SummarizeText(inputText: string, apiKey: string,
                         split: string -> seq<string>,
                         run: (string, seq<Document>) -> string): Result<string, SummarizeError>
  {
    if IsBlank(inputText) then Failure(EmptyInput)
    else
      var segments := split(inputText);
      if segments == [] then Failure(NoSegments)
      else
        var documents := DocumentList(segments);
        if documents == [] then Failure(NoDocuments)
        else Success(run(apiKey, documents))
  }

  /** Filtering a concatenation filters each part: the kept segments stay
      in their original order. */
  lemma {:induction false} DocumentListAppend(a: seq<string>, b: seq<string>)
    ensures DocumentList(a + b) == DocumentList(a) + DocumentList(b)
  {
    if a == [] {
      assert a + b == b;
    } else {
      assert (a + b)[1..] == a[1..] + b;
      DocumentListAppend(a[1..], b);
    }
  }

  /** A segment becomes a document exactly when it is one of the splitter's
      segments and is not blank. */
  lemma {:induction false} DocumentListMembers(segments: seq<string>, s: string)
    ensures Document(s) in DocumentList(segments) <==> s in segments && !IsBlank(s)
  {
    if segments != [] {
      DocumentListMembers(segments[1..], s);
      assert segments == [segments[0]] + segments[1..];
    }
  }

  /** No document is made exactly when every segment is blank. */
  lemma {:induction false} DocumentListEmptyIff(segments: seq<string>)
    ensures DocumentList(segments) == [] <==> forall i :: 0 <= i < |segments| ==> IsBlank(segments[i])
  {
    if segments != [] {
      var rest := segments[1..];
      DocumentListEmptyIff(rest);
      if IsBlank(segments[0]) {
        assert (forall i :: 0 <= i < |segments| ==> IsBlank(segments[i]))
          <==> (forall i :: 0 <= i < |rest| ==> IsBlank(rest[i])) by {
          if forall i :: 0 <= i < |rest| ==> IsBlank(rest[i]) {
            forall i | 0 <= i < |segments| ensures IsBlank(segments[i]) {
              if i > 0 {
                assert segments[i] == rest[i - 1];
              }
            }
          }
        }
      }
    }
  }

  /** Every document the chain receives carries one non-blank segment, and
      no more documents are made than there are segments. */
  lemma {:induction false} DocumentListBounds(segments: seq<string>)
    ensures |DocumentList(segments)| <= |segments|
    ensures forall d :: d in DocumentList(segments) ==> d.pageContent in segments && !IsBlank(d.pageContent)
  {
    if segments != [] {
      DocumentListBounds(segments[1..]);
    }
  }

  /** Blank input is rejected before the splitter or the chain is used:
      the outcome is `EmptyInput` for every splitter and chain, and only for
      blank input. */
  lemma SummarizeRejectsBlank(inputText: string, apiKey: string,
                              split1: string -> seq<string>, run1: (string, seq<Document>) -> string,
                              split2: string -> seq<string>, run2: (string, seq<Document>) -> string)
    ensures SummarizeText(inputText, apiKey, split1, run1) == Failure(EmptyInput)
      <==> forall k :: 0 <= k < |inputText| ==> IsSpace(inputText[k])
    ensures IsBlank(inputText) ==>
      SummarizeText(inputText, apiKey, split1, run1) == SummarizeText(inputText, apiKey, split2, run2)
  {
    BlankIffAllSpace(inputText);
  }

  /** Every outcome of `summarize_text` and exactly when it happens. */
  lemma SummarizeOutcomes(inputText: string, apiKey: string,
                          split: string -> seq<string>, run: (string, seq<Document>) -> string)
    ensures SummarizeText(inputText, apiKey, split, run) == Failure(NoSegments)
      <==> !IsBlank(inputText) && split(inputText) == []
    ensures SummarizeText(inputText, apiKey, split, run) == Failure(NoDocuments)
      <==> !IsBlank(inputText) && split(inputText) != []
           && forall i :: 0 <= i < |split(inputText)| ==> IsBlank(split(inputText)[i])
    ensures SummarizeText(inputText, apiKey, split, run).Success?
      <==> !IsBlank(inputText) && exists i :: 0 <= i < |split(inputText)| && !IsBlank(split(inputText)[i])
    ensures SummarizeText(inputText, apiKey, split, run).Success? ==>
      SummarizeText(inputText, apiKey, split, run).value == run(apiKey, DocumentList(split(inputText)))
  {
    DocumentListEmptyIff(split(inputText));
  }

  /** A chain that always answers the same text has that text echoed
      verbatim for any valid input. */
  lemma SummarizeEchoesStub(inputText: string, apiKey: string, split: string -> seq<string>, stub: string)
    requires !IsBlank(inputText)
    requires exists i :: 0 <= i < |split(inputText)| && !IsBlank(split(inputText)[i])
    ensures SummarizeText(inputText, apiKey, split, (key, docs) => stub) == Success(stub)
  {
    SummarizeOutcomes(inputText, apiKey, split, (key, docs) => stub);
  }
}
