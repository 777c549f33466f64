# PDF PowerTool text pipeline, in Dafny

This project models the text pipeline of PDF PowerTool, a small Streamlit
app. A user uploads a PDF, the app extracts its text, and the text can then
be translated or summarized. Three pieces of `app.py` hold logic of their own:

- `extrair_texto_pdf` joins the page texts in page order. It returns the
  pair `(texto, erro)`: the text, or an error when the text is blank. When
  reading the PDF raises, the error is either the password message or a
  generic message that embeds the exception. (module `Extractor`,
  `extractor.dfy`)
- `resumir_texto` cuts the text into slices of at most 1024 characters
  (module `Chunker`, `chunker.dfy`). It hands each slice to the summarization
  model in order and appends the first `summary_text` of every non-empty
  reply, followed by a space. It strips the result at the end. Any exception
  turns the whole result into an error text. (module `Summarizer`,
  `summarizer.dfy`)
- `mapa_idiomas` is the dictionary from the five target-language labels of
  the select box to the codes handed to the translator. (module `Languages`,
  `languages.dfy`)

Module `Text` (`text.dfy`) holds the Python string operations these rely on:
`str.strip()`, `str.lower()`, `in` on strings, and `"".join`.

The outside world is abstracted:

- The PDF library is a value of type `Extractor.Parse`. It holds either the
  page texts in page order, or the message of the exception raised while
  opening the document, reading a page or closing it.
- The summarization model is a function `string -> Summarizer.Reply`. A
  reply is either the list of `summary_text` values returned, or the message
  of the exception raised.
- `Summarizer.Summarize` models the loop of `resumir_texto` as a method. Its
  second result, `calls`, lists the chunks handed to the model in call
  order. This makes the number, order and stopping point of the calls
  statable.

## Model

| member | source | states |
|---|---|---|
| `Text.LeadingSpaces` | app.py:56 | the left part of `strip()`: the count it cuts off is all whitespace and the character after it is not |
| `Text.TextEnd` | app.py:56 | the right part of `strip()`: everything from the returned position on is whitespace and the character before it is not |
| `Text.StripIsCore` | app.py:56 | `strip()` returns a contiguous piece of the input with only whitespace before and after it |
| `Text.StripEnds` | app.py:56 | the result of `strip()` neither starts nor ends with whitespace |
| `Text.StripEmptyIffBlank` | app.py:20 | `not s.strip()` holds exactly when `s` is empty or all whitespace (both directions) |
| `Text.StripDropsTrailing` | app.py:54-56 | a text that neither starts nor ends with whitespace survives `strip()` unchanged when whitespace is appended to it |
| `Text.LowerSlice` | app.py:25 | lower-casing commutes with slicing, so a case variant of "password" anywhere in the message lowers to "password" at the same place |
| `Text.ContainsIff` | app.py:25 | Python's `p in s` holds exactly when `p` occurs in `s` at some position (both directions) |
| `Text.ConcatAppend` | app.py:17 | `"".join` of two lists put together is the join of the first followed by the join of the second |
| `Text.ConcatAround` | app.py:17 | in the joined text, each part comes right after the parts before it and right before the parts after it |
| `Text.Strip` | app.py:20 | Python's `str.strip()`, built from `LeadingSpaces` and `TextEnd`; what it returns is stated by `StripIsCore`, `StripEnds` and `StripEmptyIffBlank` |
| `Text.Lower` | app.py:25 | `str.lower()` character by character, keeping the length; `LowerSlice` states that it commutes with slicing |
| `Text.Contains` | app.py:25 | Python's `p in s` as a left-to-right scan; `ContainsIff` states that it holds exactly when `p` occurs at some position |
| `Text.Concat` | app.py:17 | `"".join` of a list of strings; `ConcatAppend` and `ConcatAround` state how the parts sit in the result |
| `Chunker.Slice` | app.py:48 | Python's slice `s[lo:hi]` for non-negative bounds, both clamped to the length; `ChunkIsSlice` states the slices the chunker takes |
| `Chunker.ChunkCount` | app.py:48 | the number of offsets in `range(0, len(texto), 1024)`; `ChunkStartInside` and `ChunkCountIsCeiling` state that it counts exactly the offsets inside the text |
| `Chunker.Chunks` | app.py:47-48 | the chunk list comprehension, one slice per offset of `range(0, len(s), size)`; `ChunkLengths`, `ChunkCountIsCeiling` and `ConcatChunks` state its shape and that it loses nothing |
| `Chunker.ChunkStartInside` | app.py:48 | the start offset `j * size` of `range(0, len(s), size)` is inside the text exactly when `j` is below the chunk count |
| `Chunker.ChunkIsSlice` | app.py:48 | chunk `j` is the text from offset `j * size` to the next boundary, or to the end of the text |
| `Chunker.ChunkLengths` | app.py:47-48 | every chunk is non-empty and at most `size` long, and every chunk but the last is exactly `size` long |
| `Chunker.ChunkCountIsCeiling` | app.py:48 | the number of chunks is the ceiling of `len(s) / size`, and there are no chunks exactly when the text is empty |
| `Chunker.ShortTextIsOneChunk` | app.py:48 | a non-empty text of at most `size` characters is a single chunk equal to the text |
| `Chunker.ConcatChunks` | app.py:48 | chunking is lossless: the chunks joined in order give back the text exactly |
| `Summarizer.Step` | app.py:52-54 | one pass of the loop body: an exception ends the loop with its message, a non-empty reply appends its first `summary_text` and a space, an empty one adds nothing; `AccumulateAllReturned` and `AccumulateFirstRaise` state its effect over all chunks |
| `Summarizer.Accumulate` | app.py:50-55 | the outcome of the loop over the chunks, a left fold that stops at the first exception; `AccumulateAllReturned`, `AccumulateFirstRaise` and `FailureIsFinal` state it in closed form |
| `Summarizer.CallsMade` | app.py:50-52 | the chunks handed to the model, in call order, up to and including the first that raises; `AccumulateAllReturned` and `AccumulateFirstRaise` state which they are |
| `Summarizer.Render` | app.py:56-58 | the value returned for an outcome: the stripped accumulator, or the error prefix followed by the exception's message; `SummaryJoinsParts` and `SummaryFailsFast` state each case |
| `Summarizer.SummaryOf` | app.py:45-58 | the value `resumir_texto` returns: the stripped accumulator, or the error text with the exception's message; `SummaryJoinsParts`, `SummaryFailsFast`, `SummaryOfEmptyText` and `SummaryOfTwoChunks` state it |
| `Summarizer.Summarize` | app.py:45-58 | the loop of `resumir_texto` returns the value of the specification `SummaryOf`, and it hands the model exactly the chunks `CallsMade` lists, in that order |
| `Summarizer.FailureIsFinal` | app.py:51-58 | after a call raises, later chunks change neither the outcome nor the calls made: they are never sent |
| `Summarizer.AccumulateAllReturned` | app.py:50-55 | when no call raises, every chunk is sent exactly once, in order, and the accumulator is the kept summaries, each followed by one space |
| `Summarizer.AccumulateFirstRaise` | app.py:51-58 | when chunk `i` is the first whose call raises, exactly chunks 0 to `i` are sent and the outcome is that exception's message, whatever was accumulated |
| `Summarizer.FailsIffSomeRaise` | app.py:51-58 | the loop fails exactly when the model raises on some chunk (both directions) |
| `Summarizer.SpacedIsJoinPlusSpace` | app.py:54 | appending each part with one trailing space gives the parts joined by single spaces plus one trailing space |
| `Summarizer.SummaryJoinsParts` | app.py:50-56 | when no call raises and every kept summary is trimmed, the result is the kept summaries joined by single spaces; empty replies contribute nothing |
| `Summarizer.SummaryOfEmptyText` | app.py:48-56 | empty text yields no chunks, no calls to the model and the result "" |
| `Summarizer.SummaryFailsFast` | app.py:51-58 | when the model raises on some chunk, the result is the error text with the first such exception's message, and no later chunk is sent |
| `Summarizer.SummaryOfTwoChunks` | app.py:47-56 | a 2048-character text is sent as exactly two calls, its first and second 1024 characters in that order, and two trimmed summaries come back joined by one space |
| `Extractor.MentionsPassword` | app.py:25 | the test `"password" in str(e).lower()`; `PasswordIffMentioned` and `PasswordInAnyCase` state when it holds |
| `Extractor.Classify` | app.py:14-28 | which of the four endings `extrair_texto_pdf` reaches; `ExtractedIffNotBlank`, `NoTextIffBlank` and `PasswordIffMentioned` state each branch in both directions |
| `Extractor.ExtractText` | app.py:14-28 | `extrair_texto_pdf` given what reading the bytes gives; `PairRoundTrip` states that every ending can be read back from its pair, and `PagesInOrder` that pages are joined in order |
| `Extractor.AsPair` | app.py:20-28 | the returned pair always has exactly one of text or error set, and the text is set only for a successful extraction |
| `Extractor.PairRoundTrip` | app.py:21-28 | every ending can be read back from its pair: the three error texts never clash, and the exception's message is recoverable from the generic error |
| `Extractor.ExtractedIffNotBlank` | app.py:17-23 | text comes back exactly when the pages were read and their joined text is not blank, and it is that joined text unchanged (both directions) |
| `Extractor.NoTextIffBlank` | app.py:17-21 | the no-text error comes back exactly when the pages were read and their joined text is empty or all whitespace (both directions) |
| `Extractor.PasswordIffMentioned` | app.py:24-26 | an exception gives the password error exactly when "password" occurs in its lower-cased message (both directions) |
| `Extractor.PasswordInAnyCase` | app.py:25-26 | any spelling that lower-cases to "password", such as "Password" or "PASSWORD", anywhere in the message gives the password error |
| `Extractor.UnexpectedEmbedsMessage` | app.py:27-28 | any other exception gives the generic error, and the exception's message appears in it right after the fixed prefix |
| `Extractor.PagesInOrder` | app.py:17 | the extracted text holds the page texts in page order: any page's text follows the text of the pages before it and precedes the text of the pages after it |
| `Languages.TargetCode` | app.py:99-103 | looking up any label of the select box in `mapa_idiomas` succeeds and gives a two-letter code from {pt, en, es, fr, de} |
| `Languages.LanguageLabels` | app.py:94-99 | the select box offers five distinct labels, and the dictionary has exactly five entries whose keys are exactly those labels |
| `Languages.LanguageCodeSet` | app.py:99 | the codes of the dictionary are exactly pt, en, es, fr and de |
| `Languages.TargetCodesDistinct` | app.py:99 | different labels map to different codes |

Three behaviours of `app.py` shape the contracts:

- Reading errors. Only an exception whose lower-cased message contains
  "password" gives the password error. Every other exception gives the
  generic error with the message (app.py:24-28).
- Summary spacing. Each `summary_text` is appended unchanged with one
  trailing space, and only the final text is stripped (app.py:54-56).
  `SummaryJoinsParts` therefore assumes trimmed summaries. Summaries with
  their own leading or trailing whitespace keep it in the middle of the
  result.
- Failure policy. The first exception ends the loop and the error text
  replaces whatever was accumulated (app.py:51-58). The model does the same.

## Left out

- The Streamlit interface (page setup, sidebar, upload widget, tabs, buttons, spinners, status boxes, text areas) and its `st.stop()` control flow: presentation only.
- The `@st.cache_data` and `@st.cache_resource` memoization: framework caching with no logic in this file.
- PyMuPDF: opening the byte stream, reading each page's text, and releasing the document handle are replaced by the `Parse` value. The handle is not closed when reading a page raises; that resource leak is not modelled.
- `traduzir_texto`: a single call to an external translation service inside a try block, with no chunking in this file.
- `carregar_modelo_resumo`: loading a model by name, and showing an error and returning `None` when loading fails, is a foreign call and a UI message. The summarizer is a given function here.
- The generation settings `max_length=150`, `min_length=30` and `do_sample=False`: they only affect what the model returns, which is abstract here.
- Summarizer.Summarize: the model is a deterministic function of the chunk. A model that answers differently for the same chunk on different calls is not modelled.
- Summarizer.Reply: only the first element's `summary_text` is read (app.py:54). If that element lacks the key, `KeyError` is raised. The model covers that case as `Raised` with the exception's message, which gives the same error text as any other exception.
- Text.LowerChar: only the ASCII letters A-Z are lower-cased. Python's full Unicode lower-casing is not modelled. Outside ASCII, only the Kelvin sign and the dotted capital I lower-case to ASCII letters (k and i), and neither letter occurs in "password", so the password test is unaffected.
- Text.IsSpace: whitespace is a fixed list of code points, those of Python's `str.isspace()`. It is not derived from the Unicode database.
- Python strings may hold lone surrogate code points. Dafny's `char` cannot, so such strings are not modelled.
