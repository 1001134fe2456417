# Insight agent text analysis, modelled in Dafny

The insight agent is a small HTTP service. Its one piece of logic is `POST /analyze`:
the request body `{"text": ...}` is checked against the `AnalysisRequest` schema.
The field must be present and at least one character long. The handler
`analyze_text` then answers with three things:

- the text, echoed back unchanged (`original_text`);
- the number of tokens `text.split()` yields (`word_count`);
- the length of `''.join(text.split())` (`character_count`).

This project models that rule and proves what it means.

- `str_split.dfy`, module `StrSplit`, models Python's argument-less `str.split()`.
  It gives the whitespace table (the code points for which `str.isspace()` holds),
  `Split`, `''.join` (`Concat`) and `sep.join` (`Join`). It also gives independent
  reference definitions: `RemoveWs`, `WsCount`, `RunCount`, and the
  gap/token layout `IsRunDecomposition`. Lemmas tie `Split` to each of them.
- `insight_agent.dfy`, module `InsightAgent`, models `main.py`:
  - the schema check (`Validate`);
  - the handler (`AnalyzeText`), including its own empty-text 400 branch;
  - the endpoint as validation followed by the handler (`Analyze`);
  - the examples from the repository's tests.

Strings are sequences of Unicode scalar values, so `"🌍"` is one character, as in Python 3.
A Python `str` can also hold lone surrogates (U+D800 to U+DFFF), which a Dafny `char` cannot;
see "Left out".
Every operation is a pure function; analysing the same text twice gives the same result
by construction.

## Model

| member | source | states |
|---|---|---|
| `StrSplit.IsWsIsTable` | main.py:29 | the delimiter test of `split()` holds exactly for the 29 code points listed one by one in `WsTable`: those for which `str.isspace()` holds |
| `StrSplit.TakeWord` | main.py:29 | the word `split()` takes is the longest whitespace-free prefix: a prefix of the text, with no whitespace, followed by whitespace or the end |
| `StrSplit.Split` | main.py:29 | every token `split()` yields is non-empty and contains no whitespace |
| `StrSplit.Concat` | main.py:30 | `''.join(words)` is `sep.join(words)` with the empty separator, and joining whitespace-free words gives a whitespace-free string |
| `StrSplit.ConcatSplitIsRemoveWs` | main.py:30 | `''.join(s.split())` is `s` with every whitespace character deleted, order kept |
| `StrSplit.RemoveWsLength` | main.py:30 | deleting the whitespace leaves `len(s)` minus the number of whitespace characters |
| `StrSplit.SplitCountsRuns` | main.py:29 | the number of tokens is the number of maximal non-whitespace runs, counted as run starts (a non-whitespace character first or after whitespace) |
| `StrSplit.SplitOfDecomposition` | main.py:29 | any layout of `s` as whitespace gaps and tokens, with non-empty gaps between tokens and possibly empty gaps at the ends, has exactly the tokens `split()` returns |
| `StrSplit.SplitDecomposes` | main.py:29 | `s` is the tokens of `s.split()` separated by whitespace gaps: runs of whitespace are one delimiter, and ends give no empty token |
| `StrSplit.SplitCharacterization` | main.py:29 | `s.split() == words` if and only if `s` is `words` laid out between whitespace gaps |
| `StrSplit.NoTokensIffAllWs` | main.py:29 | `s.split()` is empty if and only if `s` is whitespace only |
| `StrSplit.SplitJoin` | main.py:29 | splitting tokens joined by any non-empty whitespace separator gives the tokens back |
| `StrSplit.SplitAppend` | main.py:29 | `(a + b).split()` is `a.split() + b.split()` if and only if the boundary between `a` and `b` is not inside a token; otherwise both splits are non-empty and the last token of `a` and the first token of `b` are joined into one token of `a + b`, the others kept in order, so there is one token fewer |
| `StrSplit.SplitUpToWs` | main.py:29 | exchanging whitespace characters for other whitespace characters (tab, newline, space) leaves the tokens unchanged |
| `InsightAgent.Validate` | main.py:14-19 | a body is accepted if and only if `text` is present and non-empty; nothing is trimmed first; a missing field and `""` get their own errors |
| `InsightAgent.WordCount` | main.py:29 | `word_count`, `len(text.split())`, is the number of maximal non-whitespace runs, counted independently by a run-start scanner |
| `InsightAgent.CharacterCount` | main.py:30 | `character_count`, `len(''.join(text.split()))`, is the length of the text with its whitespace deleted, that is, the length minus the whitespace count |
| `InsightAgent.CountBounds` | main.py:29-30 | `word_count <= character_count <= len(text)` |
| `InsightAgent.NoWordsIffWhitespaceOnly` | main.py:29-30 | no words if and only if the text is whitespace only, and if and only if no characters are counted |
| `InsightAgent.AnalyzeText` | main.py:24-36 | the handler fails with 400 "Text field cannot be empty" if and only if the text is empty; otherwise it echoes the text unchanged, with the run count and the non-whitespace count |
| `InsightAgent.Analyze` | main.py:14-36 | the endpoint fails if and only if `text` is missing or empty, and then always with a validation error, so the handler's 400 branch is unreachable; on success it echoes and counts as above |
| `InsightAgent.WhitespaceOnlyAccepted` | main.py:15-30 | a non-empty whitespace-only text passes validation and yields zero words and zero characters |
| `InsightAgent.DelimitersAlike` | main.py:29-30 | texts that differ only in which whitespace characters they use have the same word and character counts |
| `InsightAgent.AnalyzeByTokens` | main.py:29-36 | a layout of the text as tokens and gaps fixes the answer: as many words as tokens, as many characters as the tokens' total length |
| `InsightAgent.RejectsEmptyAndMissing` | tests/test_main.py:40-50 | `{"text": ""}` and `{}` are both rejected by validation |
| `InsightAgent.ExampleSimpleText` | tests/test_main.py:29-38 | "I love cloud engineering!" gives 4 words and 22 characters, echoed unchanged |
| `InsightAgent.ExampleSingleWord` | tests/test_main.py:52-61 | "Hello", with no whitespace at all, gives 1 word and 5 characters, echoed unchanged |
| `InsightAgent.ExampleMultipleSpaces` | tests/test_main.py:63-73 | "Hello    world    test" gives 3 words and 14 characters |
| `InsightAgent.ExampleNumbers` | tests/test_main.py:75-83 | "I have 123 items" gives 4 words and 13 characters |
| `InsightAgent.ExampleSpecialCharacters` | tests/test_main.py:85-93 | "Hello! How are you?" gives 4 words and 16 characters |
| `InsightAgent.ExampleNewlines` | tests/test_main.py:108-115 | "Line one\nLine two\nLine three" gives 6 words (and 23 characters) |
| `InsightAgent.ExampleUnicode` | tests/test_main.py:117-125 | "Hello 世界 🌍" gives 3 words (and 8 characters), echoed unchanged |

## Left out

- The FastAPI application, its routing, `async` handlers and JSON (de)serialisation are framework code. A body is modelled as a value whose `text` is present or absent.
- The HTTP status codes are not modelled as numbers. A validation error (answered with 422) and the handler's own error (answered with 400) are separate error kinds.
- A `text` of the wrong JSON type is rejected by the framework's schema. It is not modelled: a body here has either a string or nothing.
- The `/health` endpoint returns a constant, so there is nothing to prove about it.
- The OpenAPI metadata and the `/docs` and `/openapi.json` pages are generated by the framework.
- The `uvicorn.run` entry point and the `PORT` environment variable are process configuration.
- The whitespace table is the one current Python versions use. Python takes it from the Unicode database, and a future Unicode version could change it.
- Texts that contain lone surrogates (code points U+D800 to U+DFFF, which a JSON body can carry as `"\ud800"`) cannot be written in the model, because a `char` here is a Unicode scalar value. No surrogate is whitespace, so such a text would split like one with any other non-whitespace character in its place, but the model does not state this.
- The long two-sentence text of tests/test_main.py:95-106 has no example lemma of its own: evaluating `split()` on a 148-character literal is beyond what the verifier can do cheaply. `SplitAppend`, `WordCount` and `CharacterCount` cover it as they cover every text.
- tests/conftest.py holds only an empty fixture.
