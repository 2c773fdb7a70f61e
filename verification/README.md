# Lesson-plan extractor: document flattening, prompt, reply handling

A Streamlit page (`app0.py`) takes a Word file of Algerian lesson plans. It
flattens the file to plain text and sends at most 25,000 characters of it
to a language model with an instruction line. It then unwraps the model's
JSON reply into a list of records. Finally it shows one of three things: the
records (as a table whose preferred columns come first), the error the
reply carries, or a "no data" warning.

This project models the logic of that page in Dafny and proves what it
guarantees:

- `pystr.dfy` (module `PyStr`) gives the Python string and list built-ins
  the page relies on:
  - `str.isspace`, written out as Python's exact set of white-space code points;
  - `str.strip`, `str.replace("\n", " ")`, `sep.join`;
  - substring `in`, and list comprehensions with a condition;
  - `str.split`, which the page does not call: it states that the flattened
    text splits back into its lines.
- `docx_text.dfy` (module `DocxText`) models `extract_text_from_docx`.
  - The document is abstract: paragraph texts, then tables of rows of cell texts.
  - `ExtractText` is the nested-loop method.
  - It is proved equal to the specification function `DocumentText`.
  - Lemmas state how each paragraph and each row contributes.
- `prompt.dfy` (module `Prompt`) models the user prompt: the fixed
  instruction line followed by `text[:25000]`.
- `reply.dfy` (module `Reply`) covers the reply side:
  - a datatype for the values `json.loads` produces;
  - the `{"error": message}` wrapping of a failed request or reply parse;
  - `UnwrapReply`, the loop that builds `data_list`;
  - `Decide`, the choice between records, source error and the "no data" warning.
- `columns.dfy` (module `Columns`) models the column order of the results
  table: the present preferred columns in the fixed order, then the rest in
  their original order.
- `seqs.dfy` and `wrappers.dfy` hold generic sequence facts and an `Option` type.

The page does not strip code fences from the reply and does not validate
the records. It searches only the top-level values of an object reply for a
list, and the prompt budget is 25,000 characters.

`"error" in result` and `result['error']` can raise `TypeError`. This happens for:

- a `null`, boolean or number reply;
- a list containing the string `"error"`;
- a string containing `"error"`.

The page's outer `except` then shows a generic error. The model makes this
a fourth outcome, `Aborted`.

## Model

| member | source | states |
|---|---|---|
| DocxText.ExtractText | app0.py:55-76 | The nested loops return exactly `DocumentText(doc)`: the non-blank paragraphs, then one line per table row with content, in table and row order, joined with line feeds. |
| DocxText.ParagraphLines | app0.py:61-63 | Definition only: the non-blank paragraphs, unchanged and in order; characterised by `DocxText.ParagraphContribution`. |
| DocxText.CleanCells | app0.py:68-72 | Definition only: the final `row_text`; characterised by `DocxText.CleanCellsTidy` and `DocxText.CleanCellsNone`. |
| DocxText.RowLine | app0.py:73-74 | Definition only: what one row adds; characterised by `DocxText.RowContribution`. |
| DocxText.RowsLines | app0.py:67-74 | Definition only: the rows' lines in row order; characterised by `DocxText.RowOrder` and `DocxText.RowsLinesShape`. |
| DocxText.TableLines | app0.py:66-74 | Definition only: the rows' lines table by table; characterised by `DocxText.RowOrder` and `DocxText.TableLinesShape`. |
| DocxText.DocumentLines | app0.py:58-74 | Definition only: the paragraph lines followed by the table lines; characterised by `DocxText.LinesShape`, `DocxText.ParagraphContribution` and `DocxText.RowOrder`. |
| DocxText.DocumentText | app0.py:76 | Definition only: the lines joined with line feeds; characterised by `DocxText.TextShape` and `DocxText.TextSplitsIntoLines`. |
| DocxText.CleanCell | app0.py:70 | A cleaned cell is as long as the stripped cell text: replacing line feeds by spaces changes no length. |
| DocxText.CleanCellShape | app0.py:70-71 | A cleaned cell is empty exactly when the cell holds only white space; otherwise it has no line feed and neither starts nor ends with white space. |
| DocxText.CleanCellsTidy | app0.py:68-72 | Every cell text appended to `row_text` is non-empty, has no line feed and has no white space at either end. |
| DocxText.CleanCellsNone | app0.py:68-73 | `row_text` ends empty exactly when every cell of the row is blank. |
| DocxText.ParagraphContribution | app0.py:61-63 | A paragraph adds exactly itself, not stripped, when it is not blank, and nothing when it is; the lines before and after it are unaffected. |
| DocxText.RowSilent | app0.py:73-74 | A row adds no line exactly when all its cells are blank. |
| DocxText.JoinTidy | app0.py:74 | Joining tidy cells with the bar separator gives a tidy line. |
| DocxText.RowLineTidy | app0.py:68-74 | The line a row adds is its cleaned non-empty cells joined with the bar separator. It has no line feed and no white space at either end. |
| DocxText.RowContribution | app0.py:66-74 | A row adds at most one line. It adds none exactly when all its cells are blank; otherwise the line is the joined cleaned cells and is tidy. |
| DocxText.RowOrder | app0.py:66-74 | Row lines appear in table order and then row order; a row's line sits between the lines of the rows and tables before it and after it. |
| DocxText.LinesShape | app0.py:58-74 | No line of the document is empty, and no table line holds a line feed. |
| DocxText.TableLinesShape | app0.py:66-74 | Every line the tables add is non-empty and free of line feeds. |
| DocxText.RowsLinesShape | app0.py:67-74 | Every line the rows of one table add is non-empty and free of line feeds. |
| DocxText.TextShape | app0.py:76 | The text is empty exactly when there are no lines. Otherwise it starts with the first line and ends with the last, and it is as long as the lines plus one line feed between each two. No separator is added at either end. |
| DocxText.TextSplitsIntoLines | app0.py:58-76 | When no paragraph holds a line break and there is at least one line, splitting the text on line feeds gives back exactly the document's lines. |
| PyStr.IsSpace | app0.py:62 | Definition only: Python's `str.isspace` code-point set, the white space `strip()` removes; used by `PyStr.Strip` and `PyStr.StripSpec`. |
| PyStr.TrimStart | app0.py:62 | Stripping the front leaves a suffix of the text that does not start with white space. |
| PyStr.TrimEnd | app0.py:62 | Stripping the back leaves a prefix of the text that does not end with white space. |
| PyStr.TrimStartDropsSpace | app0.py:62 | Only white space is removed from the front. |
| PyStr.TrimEndDropsSpace | app0.py:62 | Only white space is removed from the back. |
| PyStr.Strip | app0.py:62 | `strip()` never lengthens the text, and its result neither starts nor ends with white space. |
| PyStr.StripSpec | app0.py:62 | `strip()` gives the empty string exactly when the text is all white space. The result is the text with a white-space prefix and a white-space suffix removed. |
| PyStr.AllSpaceSplit | app0.py:62 | A text is all white space exactly when both pieces of any split of it are. |
| PyStr.ReplaceNewlines | app0.py:70 | `replace("\n", " ")` keeps the length. |
| PyStr.ReplaceNewlinesAt | app0.py:70 | At each position `replace("\n", " ")` puts a space where there was a line feed and keeps every other character. |
| PyStr.Join | app0.py:74 | Definition only: `sep.join(parts)`; characterised by `PyStr.JoinShape`, `PyStr.JoinEmpty`, `PyStr.JoinAvoids` and `PyStr.SplitJoin`. |
| PyStr.JoinShape | app0.py:76 | `sep.join(parts)` starts with the first part and ends with the last. Its length is the parts' total length plus one separator between each two neighbours. |
| PyStr.JoinEmpty | app0.py:76 | Joining non-empty parts gives the empty string exactly when there are no parts. |
| PyStr.JoinAvoids | app0.py:74 | A character in neither the separator nor any part is not in the joined string. |
| PyStr.IndexOf | app0.py:76 | The index found is that of the first occurrence of the character, or the length when the character does not occur. |
| PyStr.Split | app0.py:76 | Splitting always gives at least one piece. |
| PyStr.SplitJoin | app0.py:76 | Splitting on a character undoes joining with it, provided no part contains that character. |
| PyStr.ContainsSubstring | app0.py:151 | Definition only: substring `in`; characterised by `PyStr.ContainsSubstringAt`. |
| PyStr.ContainsSubstringAt | app0.py:151 | Python's `needle in s` holds exactly when `needle` occurs at some position of `s`. |
| PyStr.Filter | app0.py:159 | A list comprehension with a condition never lengthens the list. |
| PyStr.FilterMember | app0.py:159 | An element survives the comprehension exactly when it is in the list and meets the condition. |
| PyStr.FilterConcat | app0.py:159 | The comprehension over two concatenated lists is the concatenation of the comprehensions. |
| PyStr.FilterSingle | app0.py:62-63 | A single element survives exactly when it meets the condition. |
| PyStr.FilterDistinct | app0.py:159 | Filtering a list without repeats gives a list without repeats. |
| PyStr.DistinctCount | app0.py:159 | In a list without repeats, each element occurs once. |
| PyStr.FilterIsSubsequence | app0.py:159 | A comprehension keeps the surviving elements in their original order. |
| PyStr.FilterAgree | app0.py:159 | Comprehensions whose conditions agree on every element give the same list. |
| PyStr.FilterNone | app0.py:159 | A comprehension whose condition no element meets gives the empty list. |
| PyStr.FilterAll | app0.py:159 | A comprehension whose condition every element meets gives the list back. |
| Prompt.Subject | app0.py:98 | `text[:25000]` is a prefix of the text whose length is min(len(text), 25000). |
| Prompt.UserPrompt | app0.py:98 | The prompt starts with the fixed instruction line and is at most 25,000 characters longer than it; `Prompt.UserPromptShape` gives the exact content. |
| Prompt.UserPromptShape | app0.py:98 | The prompt is the fixed instruction line followed by exactly `text[:25000]`; its length is the line's plus min(len(text), 25000). |
| Prompt.ShortTextEmbeddedWhole | app0.py:98 | A text of at most 25,000 characters is embedded whole. |
| Prompt.TailIgnored | app0.py:98 | Two texts that agree on their first 25,000 characters give the same prompt. |
| Prompt.SubjectIdempotent | app0.py:98 | Truncating an already truncated text changes nothing. |
| Prompt.UserPromptInjective | app0.py:98 | Two prompts are equal exactly when the truncated texts are. |
| Reply.AnalyzeReply | app0.py:100-116 | A parsed reply is returned as it is. A raised request or parse becomes the one-member object whose key is `"error"` and whose value is the exception text. |
| Reply.DataList | app0.py:140-149 | A list reply gives the list itself, an object reply never gives an empty `data_list`, and any other reply gives an empty one; `Reply.ObjectDataList` says which list an object gives. |
| Reply.ErrorIn | app0.py:151 | `"error" in result` raises (`None` here) exactly for a `null`, boolean or number reply. Otherwise it is key, element or substring membership. |
| Reply.Lookup | app0.py:177 | Definition only: the value of the first member with the key; characterised by `Reply.LookupSpec`. |
| Reply.ErrorDetail | app0.py:177 | `result['error']` raises (`None` here) for every reply that is not an object; for an object it is the lookup of `Reply.LookupSpec`. |
| Reply.FirstListIndex | app0.py:145-148 | The scan stops at the first member whose value is a list; no earlier value is a list. It reaches the end only when no value is a list. |
| Reply.UnwrapReply | app0.py:140-149 | The loop returns `DataList(result)`. For a list reply that is the list itself. For an object reply it is the first list-valued member when that list is non-empty, and otherwise the object as a one-element list. For any other reply it is empty. |
| Reply.ObjectDataList | app0.py:143-149 | For an object reply `data_list` is never empty. It is the first list-valued member when that list is non-empty, and `[result]` when that first list is empty or no member is a list. |
| Reply.LookupSpec | app0.py:177 | `result['error']` finds a value exactly when the key is present, and the value found is that of the first member with that key. |
| Reply.Decide | app0.py:151-179 | The records are shown exactly when `data_list` is non-empty and `"error"` is not in `result`, and they are `data_list`. The source error is shown only for an object with an `"error"` key. The warning is shown exactly when `data_list` is empty and `"error"` is not in `result`. |
| Reply.ObjectOutcome | app0.py:151-179 | For an object reply the records are shown exactly when it has no `"error"` key. Otherwise the value under that key is shown as the source error. The warning is never reached. |
| Reply.ListOutcome | app0.py:151-179 | For a list reply: an empty list gives the warning. A list holding the string `"error"` raises in `result['error']`. Any other list is shown as the records. |
| Reply.ScalarOutcome | app0.py:140-182 | Any reply that is neither a list nor an object leaves `data_list` empty. A string without `"error"` gives the warning; every other such reply ends in the outer `except`. |
| Reply.FailedCallShowsError | app0.py:115-116 | A failed request or reply parse becomes `{"error": message}`. That object becomes the one-element `data_list`, and the page shows the message as the source error. |
| Columns.PresentPreferred | app0.py:159 | The first comprehension yields at most the preferred names; which ones and in what order is stated by `Columns.PreferredFirst`. |
| Columns.OtherColumns | app0.py:159 | The second comprehension yields at most the columns; which ones and in what order is stated by `Columns.OthersAfter`. |
| Columns.Arrange | app0.py:159 | `final_cols` is no longer than the preferred names and the columns together; `Columns.ArrangePermutation` gives its exact length for distinct names. |
| Columns.OrderColumns | app0.py:158-160 | `final_cols` with the page's own four preferred names; `Columns.ColumnsPermutation` states it is a permutation of distinct columns. |
| Columns.SameColumns | app0.py:159 | No column is added or dropped: a name is in `final_cols` exactly when it is a column of the table. |
| Columns.PreferredFirst | app0.py:158-159 | The first entries of `final_cols` are exactly the preferred names that are columns of the table, in the preferred order. |
| Columns.OthersAfter | app0.py:159 | The remaining entries are exactly the columns that are not preferred, in their original relative order. |
| Columns.ArrangeCounts | app0.py:159 | With distinct names, each column occurs in `final_cols` as often as in the table. |
| Columns.ArrangeDistinct | app0.py:159 | With distinct names, no name appears twice in `final_cols`. |
| Columns.ArrangePermutation | app0.py:159 | With distinct names, `final_cols` is a permutation of the columns: the same multiset, the same length, and no repeats. |
| Columns.ArrangeIdempotent | app0.py:159-160 | Reordering an already reordered column list changes nothing. |
| Columns.PreferredColumnsDistinct | app0.py:158 | The four preferred names are pairwise different. |
| Columns.ColumnsPermutation | app0.py:158-160 | With distinct column names, the page's own order is a permutation of the table's columns. |

## Left out

- The Streamlit page: its setup, CSS, sidebar, API-key lookup, file uploader, buttons, spinner and all messages. The model records which outcome is shown (`Reply.Outcome`), not how it is shown.
- A failure while constructing the Cerebras client (app0.py:82) is not modelled. It happens before the `try` at app0.py:100, so it escapes `analyze_with_cerebras` and would end in the page's outer `except`, that is in `Aborted`, not in `{"error": message}`.
- The Cerebras client and the chat-completion request. This covers the system prompt, the model choice, the temperature, the token limit and the response format. It is a network call through a foreign library; the call's result is the input `CallResult`.
- `json.loads`. The parsed reply is the input value `Json`, and an object is given by its members in order. A reply text with duplicate keys, which `json.loads` collapses, is not modelled.
- Parsing the `.docx` file with python-docx. The document is given as paragraph texts and tables of rows of cell texts. How python-docx reports merged cells, nested tables and text in headers, footers or text boxes is not modelled.
- `pd.DataFrame(data_list)`, which derives the columns from the records. The column list is an input of `Columns`, and a `DataFrame` that fails to build is not modelled.
- The Excel and JSON downloads.
- The "غير مذكور" ("not mentioned") fill-in for missing fields. The page only asks the model for it in the prompt and never applies it.
- `app.py`, a greeting and a four-operation calculator unrelated to the extraction.
- Python strings may hold lone surrogate code points; Dafny characters cannot, so such text is not modelled.
- Reply.Decide: its contract gives the source-error case in one direction only (an object with an `"error"` key). The converse, and the value shown, are stated by `Reply.ObjectOutcome`.
