# FAQ chunking for the lease-transfer chatbot's vector index

The index builder of this chatbot (`build_vectorstore.py`) reads a FAQ table of
customer questions and customer-service answers and turns every row into the
text `"Vraag: " + question + "\nAntwoord: " + answer`. It cuts each such text
into fixed-width character chunks with `split_text`: a slice of `chunk_size`
characters (default 500) every `chunk_size - overlap` characters (default
overlap 50), starting at offset 0. It then collects the chunks of all rows, in
row order, into one list, which it embeds and stores in a FAISS index.

This project models that FAQ-to-chunks step in Dafny:

- `chunking.dfy`, module `Chunking`: `split_text` as a method with its `while`
  loop (`SplitText`), the recursive function that specifies it (`ChunksFrom`,
  `Chunks`), and lemmas about the chunks. These cover the chunk count, chunk
  lengths, the offset of every chunk, the worked 1200-character example,
  reconstruction of the text and the non-terminating configuration.
- `faq_chunks.dfy`, module `FaqChunks`: the row text (`RowText`), its inverse
  (`ParseRow`), the loop that collects the chunks of every row (`CollectChunks`)
  and the function that specifies it (`AllChunks`), with lemmas about where
  each row's chunks sit in the list and how many there are.

Python slicing clips both ends to the length of the text. `Chunking.Slice`
models this, and `c[overlap:]` in the reconstruction is the same clipped slice.

The code does not check `overlap >= chunk_size`. On a non-empty text `start`
then never moves forward and the loop never ends. `SplitText` requires a
positive step, and `Chunking.NoProgress` proves that without one `start` never
reaches the end of the text.

## Model

| member | source | states |
|---|---|---|
| `Chunking.Slice` | build_vectorstore.py:20 | `text[lo:hi]` with both ends clipped to the text: its length is the clipped width and character i is `text[lo + i]` |
| `Chunking.ChunksFrom` | build_vectorstore.py:18-21 | once `start` is at a given offset, the loop emits ceil((len(text) - start) / (chunk_size - overlap)) more chunks, and none if `start` is already past the end |
| `Chunking.Chunks` | build_vectorstore.py:16-22 | `split_text` returns ceil(len(text) / (chunk_size - overlap)) chunks, and returns no chunk exactly when the text is empty |
| `Chunking.SplitText` | build_vectorstore.py:16-22 | the `while` loop that appends a slice and advances `start` returns exactly the chunks of the specification `Chunks` |
| `Chunking.ChunkLengths` | build_vectorstore.py:19-20 | every chunk is non-empty and at most `chunk_size` characters long |
| `Chunking.ChunkAt` | build_vectorstore.py:18-21 | chunk k starts at offset k * (chunk_size - overlap), which lies inside the text, and equals `text[k*step : min(k*step + chunk_size, len(text))]` |
| `Chunking.ChunkOffsetsIncrease` | build_vectorstore.py:18-21 | chunks j < k are the slices at offsets j * step < k * step, so chunk offsets strictly increase in output order and stay inside the text |
| `Chunking.DefaultExample` | build_vectorstore.py:16-21 | with the defaults 500 and 50, a 1200-character text gives three chunks at offsets 0, 450 and 900, and the last is 300 characters long |
| `Chunking.Reconstruct` | build_vectorstore.py:18-21 | for 0 <= overlap < chunk_size, the first chunk followed by every later chunk without its first `overlap` characters is exactly the text |
| `Chunking.NoProgress` | build_vectorstore.py:19-21 | when overlap >= chunk_size and the text is non-empty, `start` after any number of iterations is still at or before 0, so the loop condition never fails |
| `FaqChunks.RowText` | build_vectorstore.py:13 | the row text is the question label, then the question, then the answer label, then the answer, each at its fixed offset |
| `FaqChunks.ParseRowText` | build_vectorstore.py:13 | a row whose question does not contain "\nAntwoord: " is recovered from its row text by splitting at the first answer label |
| `FaqChunks.ParsedRowText` | build_vectorstore.py:13 | any text the parser accepts is the row text of the row it returns, and that row's question contains no answer label |
| `FaqChunks.RowTextAmbiguous` | build_vectorstore.py:13 | a question that contains the answer label gives the same row text as a different question/answer split |
| `FaqChunks.TextColumn` | build_vectorstore.py:13 | the text column holds one row text per FAQ row, in row order |
| `FaqChunks.AllChunks` | build_vectorstore.py:24-26 | the collected list has as many chunks as the per-text counts ceil(len / 450) add up to |
| `FaqChunks.CollectChunks` | build_vectorstore.py:24-26 | the `for` loop that extends one list with `split_text` of each text returns exactly `AllChunks` of the texts |
| `FaqChunks.AllChunksAt` | build_vectorstore.py:24-26 | chunk k of text j sits in the collected list at the position right after all chunks of texts 0 to j - 1 |
| `FaqChunks.AllChunksOrigin` | build_vectorstore.py:24-26 | every collected chunk is a chunk of one of the texts, and is non-empty and at most 500 characters long |
| `FaqChunks.RowsChunkCount` | build_vectorstore.py:24-26 | the list built from a FAQ table has, for each row, ceil((len(question) + len(answer) + 18) / 450) chunks |

## Left out

- `chatbot.py` as a whole: the Streamlit page, styling and widgets are UI. The API-key check reads the environment. Unzipping the index is filesystem work. Loading FAISS, the LangChain retrieval chain, conversation memory and the LLM calls are library and network calls with no visible logic.
- Reading the CSV with pandas and the `astype(str)` cell conversion: questions and answers are plain strings in the model.
- Wrapping each chunk in a LangChain `Document`, the OpenAI embeddings, `FAISS.from_documents`, `save_local` and the final message: external services, persistence and output.
- Chunking.SplitText: requires `chunk_size > 0`. With `chunk_size <= 0`, Python's slice `text[start:start+chunk_size]` can have a negative end, which counts from the end of the text. That behaviour is not modelled.
- Chunking.SplitText: requires `overlap < chunk_size` even for the empty text, where the code returns `[]` for any parameters. The non-terminating case on a non-empty text is stated by `Chunking.NoProgress`, not run as a method.
- Chunking.Reconstruct: requires `overlap >= 0`. With a negative overlap the chunks leave gaps, and Python's `c[overlap:]` with a negative index takes the end of the chunk, so there is nothing to reconstruct.
- Characters are Dafny `char` values, which are Unicode scalar values. Python strings count code points, which may include lone surrogates; the model does not cover those.
