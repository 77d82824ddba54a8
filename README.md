# NLP-assignment: summarise-and-translate page, text-handling core

A model of the text-handling logic of the `NLP-assignment.py` page. On this
page a user pastes text and an OpenAI key, picks Summarize or Translate, and
for Translate picks a source and a target language. The model covers:

- **Chunking and rejoining for translation** (`translate_text`). The text
  is cut into consecutive slices of at most `max_length = 500` characters.
  Each slice goes to the translation service, and the translations are
  joined with single spaces (`Chunking`, `Translation`, `Strings.Join`).
- **Reverse language lookup** over the fixed `language_dict` table
  (`Languages`). The table is kept as its `(code, name)` items in
  insertion order. A lookup takes the first code whose display name
  matches, and raises `IndexError` when none matches.
- **Validation in `summarize_text`** (`Summarization`). Blank input is
  rejected. An empty split result is rejected. Only non-blank segments
  become `Document`s, and the input is rejected if none remain. The three
  `st.error(...)` + `return None` exits are the three `SummarizeError`
  values.
- **The page's guard and branch choice** (`Page`). Nothing runs unless the
  key starts with `"sk-"` and the text is non-empty. The radio choice picks
  exactly one branch. The Translate branch always translates the raw input,
  because `summarized_text` still holds `""` there.

The system's external collaborators are parameters of the functions that
use them. These are the translation service (`translate`), the
LangChain text splitter (`split`) and the map-reduce summarisation chain
(`run`). So every property below holds for every behaviour of those
services.

Modules: `Outcomes` (the `Result` type), `Strings` (`strip`,
`startswith`, `join`), `Languages`, `Chunking`, `Translation`,
`Summarization`, `Page`.

Notes on what the code does:

- A failed language lookup is the `IndexError` raised by `[0]` on an
  empty list; there is no dedicated error for an unknown name.
- The segments for summarisation come from the library splitter
  `CharacterTextSplitter().split_text`; the page has no splitting rule of
  its own for them.
- The comment at NLP-assignment.py:132 says the summarised text is
  translated when there is one. The code never does this: the page runs
  one branch per submission, and in the Translate branch `summarized_text`
  still holds the `""` set at NLP-assignment.py:116. So the Translate
  action always translates the user's input.
- The page guard tests `user_input` for emptiness only. Whitespace-only
  text therefore passes the guard and is rejected later by
  `summarize_text` (`Page.PageWhitespaceInput`). In the Translate branch it
  is translated as it is.

## Model

| member | source | states |
|---|---|---|
| `Strings.Strip` | NLP-assignment.py:34 | definition of `str.strip()` as `rstrip` after `lstrip`; its properties are in `StripIsTrimmedSlice` and `BlankIffAllSpace` |
| `Strings.IsBlank` | NLP-assignment.py:34 | definition of the test `not s.strip()`; characterised by `BlankIffAllSpace` |
| `Strings.StartsWith` | NLP-assignment.py:122 | definition of `str.startswith`; characterised by `StartsWithIffPrefix` |
| `Strings.Join` | NLP-assignment.py:76 | definition of `sep.join(parts)`; its properties are in `JoinAppend`, `JoinEnds`, `JoinLength` and `JoinSpaceCount` |
| `Languages.LookupIn` | NLP-assignment.py:66-67 | definition of `[code for code, name in table.items() if name == n][0]` over any table, failing with `IndexError`; its properties are in `LookupSound`, `LookupFailsIff` and `LookupInverse` |
| `Languages.LookupCode` | NLP-assignment.py:15-25 | the same lookup over the `language_dict` literal `LanguageDict`; its properties are in `LanguageLookupRoundTrip` and `LookupExamples` |
| `Chunking.Slice` | NLP-assignment.py:72 | definition of Python's `text[i:i+max_length]` for non-negative bounds, with the end clamped to the length |
| `Chunking.ChunkStarts` | NLP-assignment.py:72 | definition of `range(0, len(text), max_length)`; characterised by `ChunkStartsAreMultiples` |
| `Chunking.Chunks` | NLP-assignment.py:72 | definition of the slicing comprehension; its properties are in `ChunkCountIsCeiling`, `ChunkSizes`, `ChunksRoundTrip`, `ChunkOffset` and `ChunksAppend` |
| `Translation.TranslateText` | NLP-assignment.py:64-78 | definition of `translate_text`: source lookup, then target lookup, then the chunks translated and joined with `' '`; its properties are in the `Translate*` lemmas below |
| `Summarization.DocumentList` | NLP-assignment.py:48 | definition of the `Document` comprehension that keeps non-blank segments; its properties are in the `DocumentList*` lemmas |
| `Summarization.SummarizeText` | NLP-assignment.py:29-60 | definition of `summarize_text` with its three error exits in order; characterised by `SummarizeRejectsBlank` and `SummarizeOutcomes` |
| `Page.PlanAction` | NLP-assignment.py:116-133 | definition of the page's `if`/`elif` with the local `summarized_text`; characterised by `PlanGuard` and `TranslateUsesRawInput` |
| `Page.RunPage` | NLP-assignment.py:122-136 | one submission: the plan, then `summarize_text` or `translate_text` on its text; its properties are in `PageTranslationSucceeds` and `PageWhitespaceInput` |
| `Strings.LStrip` | NLP-assignment.py:34 | the result is a suffix of the input; every character dropped is whitespace; the result does not start with whitespace |
| `Strings.RStrip` | NLP-assignment.py:34 | the result is a prefix of the input; every character dropped is whitespace; the result does not end with whitespace |
| `Strings.StripIsTrimmedSlice` | NLP-assignment.py:34 | `strip()` returns a contiguous slice of its argument with only whitespace before and after it, and a non-empty result neither starts nor ends with whitespace |
| `Strings.BlankIffAllSpace` | NLP-assignment.py:34 | `not s.strip()` holds exactly when every character of `s` is whitespace |
| `Strings.StartsWithIffPrefix` | NLP-assignment.py:122 | `s.startswith(p)` holds exactly when `s` is `p` followed by some string |
| `Strings.JoinAppend` | NLP-assignment.py:76 | joining two non-empty lists equals joining each and putting one separator between the two results |
| `Strings.JoinEnds` | NLP-assignment.py:76 | the joined text begins with the first part and ends with the last part, with no separator added at either end |
| `Strings.JoinLength` | NLP-assignment.py:76 | joining n parts gives their total length plus n - 1 separators |
| `Strings.JoinSpaceCount` | NLP-assignment.py:76 | joining n parts with `' '` adds exactly n - 1 spaces to those already inside the parts |
| `Languages.Names` | NLP-assignment.py:129-130 | a name is among the drop-down choices exactly when some table entry carries it, so every offered name is one the lookup resolves |
| `Languages.CodesNamed` | NLP-assignment.py:66-67 | the comprehension contains a code exactly when the table pairs that code with the given name |
| `Languages.LookupFirstMatch` | NLP-assignment.py:66-67 | a successful lookup returns the code of the first entry, in `items()` order, that carries the name |
| `Languages.LookupSound` | NLP-assignment.py:66-67 | a successful lookup of a name returns a code that the table lists under that name |
| `Languages.LookupFailsIff` | NLP-assignment.py:66-67 | the lookup raises `IndexError` exactly when the name is not among the table's display names |
| `Languages.LookupInverse` | NLP-assignment.py:66-67 | in a table whose names are distinct, looking up any entry's name returns that entry's code |
| `Languages.LanguageNamesDistinct` | NLP-assignment.py:15-25 | the nine display names of `language_dict` are pairwise distinct |
| `Languages.LanguageLookupRoundTrip` | NLP-assignment.py:15-25 | over `language_dict`, looking up `n` gives `c` exactly when `(c, n)` is an entry, so names and codes are in bijection |
| `Languages.LookupExamples` | NLP-assignment.py:66-67 | "Spanish" resolves to "es"; "Klingon" raises `IndexError` |
| `Chunking.ChunkStartsAreMultiples` | NLP-assignment.py:72 | `range(0, n, 500)` yields exactly the multiples of 500 below n, in increasing order |
| `Chunking.ChunkCountIsCeiling` | NLP-assignment.py:72 | the number of chunks is the ceiling of `len(text) / 500`, and it is zero exactly for empty text |
| `Chunking.ChunkSizes` | NLP-assignment.py:69-72 | every chunk is non-empty and at most 500 characters long; every chunk but the last is exactly 500 long |
| `Chunking.ChunksSplit` | NLP-assignment.py:72 | the chunks of non-empty text are its first min(500, len) characters followed by the chunks of the rest |
| `Chunking.ChunksRoundTrip` | NLP-assignment.py:72 | the chunks written one after another give back the text exactly |
| `Chunking.ChunkOffset` | NLP-assignment.py:72 | chunk k starts at offset 500·k: the chunks before it are exactly the first 500·k characters |
| `Chunking.ChunksAppend` | NLP-assignment.py:72 | text whose first part is a multiple of 500 characters long is chunked as its two parts separately |
| `Chunking.TwelveHundredCharacters` | NLP-assignment.py:69-72 | 1200 characters give three chunks of 500, 500 and 200 characters |
| `Translation.TranslatedChunks` | NLP-assignment.py:75 | one translation per chunk, in chunk order: entry k is the service's answer for `Window(text, k)`, the text from offset 500·k up to 500·(k+1) or the end of the text |
| `Translation.TranslateFailsIff` | NLP-assignment.py:66-67 | `translate_text` fails exactly when the source or the target name is not a display name of the table |
| `Translation.TranslateEmptyText` | NLP-assignment.py:72-76 | empty text translates to `""` whatever the translation service does |
| `Translation.TranslateSeesOnlyChunks` | NLP-assignment.py:72-75 | two translation services that agree on every chunk of the text give the same result |
| `Translation.TranslateShortText` | NLP-assignment.py:72-76 | non-empty text of at most 500 characters is translated by one call, with no space added |
| `Translation.TranslateAppend` | NLP-assignment.py:72-76 | when text splits after a whole number of 500-character windows, its translation is the two parts' translations joined by exactly one space |
| `Translation.TranslateSeparators` | NLP-assignment.py:75-76 | the output's spaces are those of the translated chunks plus exactly one between each pair of neighbouring chunks |
| `Summarization.DocumentListAppend` | NLP-assignment.py:48 | filtering a concatenation is the concatenation of the filtered parts, so kept segments keep their order |
| `Summarization.DocumentListMembers` | NLP-assignment.py:48 | a segment becomes a document exactly when it is one of the splitter's segments and is not blank |
| `Summarization.DocumentListEmptyIff` | NLP-assignment.py:48-53 | no document is made exactly when every segment is blank |
| `Summarization.DocumentListBounds` | NLP-assignment.py:48 | there are no more documents than segments, and each document's content is a non-blank segment |
| `Summarization.SummarizeRejectsBlank` | NLP-assignment.py:34-36 | the outcome is `EmptyInput` exactly for all-whitespace input, and then it is the same for every splitter and chain |
| `Summarization.SummarizeOutcomes` | NLP-assignment.py:34-60 | `NoSegments` exactly when the non-blank input splits into nothing; `NoDocuments` exactly when every segment is blank; success exactly when some segment is non-blank, and then the result is the chain run on the filtered documents |
| `Summarization.SummarizeEchoesStub` | NLP-assignment.py:56-60 | a chain that always answers one fixed text has that text returned verbatim for any valid input |
| `Page.PlanGuard` | NLP-assignment.py:122-127 | something runs exactly when the key is "sk-" followed by something and the input is non-empty; then the radio choice picks the single branch, and Summarize receives the input and key unchanged |
| `Page.TranslateUsesRawInput` | NLP-assignment.py:116-133 | the text the Translate branch translates is always the user's input |
| `Page.PageTranslationSucceeds` | NLP-assignment.py:127-134 | with languages chosen from the drop-downs, the Translate branch shows a translation and never raises `IndexError` |
| `Page.PageWhitespaceInput` | NLP-assignment.py:122-124 | whitespace-only input with a valid key passes the guard and Summarize then shows the `EmptyInput` error |

## Left out

- Streamlit rendering is not modelled: page configuration, the home page, `main`, headers, spinners, `st.write` and the image. It is presentation and I/O. `st.error` is modelled only as the error value it accompanies.
- The OpenAI model construction and `load_summarize_chain(..., 'map_reduce').run` are external network calls. They appear as the parameter `run`, a function of the key and the documents. Failures inside the service are not modelled.
- `CharacterTextSplitter().split_text` is library code that is not part of this model. It appears as the parameter `split`, and its own separator and size rules are not modelled.
- `Translator(...).translate` is a third-party network client. It appears as the parameter `translate`, a function of the translator's language pair and one chunk. Its own errors are not modelled.
- Strings.IsSpace: only ASCII whitespace (space, `\t`, `\n`, `\r`, `\x0b`, `\x0c`, `\x1c`-`\x1f`) is treated as whitespace. Python's `str.strip()` also strips non-ASCII whitespace such as U+0085, U+00A0 and U+2000-U+200A, and no Unicode table is modelled.
- Characters are Unicode scalar values. Python's `len` and slicing also count code points, so the 500-character windows agree for any text the page can receive.
