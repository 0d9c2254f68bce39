# Textbook task extraction, modelled in Dafny

The system turns a Russian school problem book, stored as a Word document,
into spreadsheet sheets. It has five parts:

- **Contents parser.** It finds the "Оглавление" heading and turns each
  numbered contents line into a row `(id, name, parent)`. Ids are 1..n. A
  subsection's parent is the most recent section.
- **Task parsers.** They walk the paragraphs up to the "Ответы и советы"
  heading and split each line at its first tab. Each problem and sub-problem
  becomes one row, and a `*` difficulty mark moves from the number onto the
  task text. There are two versions:
  - `docx_parser.py` uses the contents names to set the chapter id;
  - `attempt_5.1.py` skips a fixed list of chapter titles.
- **Answer parsers.** There are three of them:
  - `docx_parser.py` cuts the answers section into numbered blocks and
    `;`-separated items. It builds a dictionary from task id to answer and
    fills the answer column of the task rows.
  - `parse_answers_2.py` lists the same records in order.
  - `parse_answers_1.py` scans paragraph by paragraph with a single
    pattern.
- **Difficulty filter.** `fix_difficult_tasks_symb` moves the `*`.
- **Classifier post-processing.** Each level head's best class becomes a
  topic record, and the per-text list of levels is assembled.

Regular expressions are written out as matchers that follow Python's `re`
semantics:

- a lazy group ends at the first position where the rest matches;
- `finditer` resumes after a match, or one character further on when there
  is none;
- `\s*` and `\d+` are greedy.

Each loop of the source is a Dafny method. Each method is proved equal to a
fold-style specification function. The lemmas state the source's promises
about those functions.

Modules:

- `Wrappers`: Option and Result.
- `Text`: the Python string operations the code uses, such as `strip`,
  `find`, `split`, slicing, `replace` and `lower`.
- `Toc`: the contents parser.
- `Tasks`: both task parsers.
- `Answers`: the whole-text answer parsers.
- `AnswersByParagraph`: `parse_answers_1.py`.
- `Filters`: the difficulty filter.
- `Classifier`: the classifier post-processing.

Where the source raises an error, the model returns a failure value:

- `UnboundLocalError` in the task parsers, when the code reads a name it has
  not yet assigned;
- `IndexError` in the classifier.

## Model

| member | source | states |
|---|---|---|
| Toc.TitleEnd | docx_parser.py:28-29 | The lazy title group ends within the text, at or after where it starts. |
| Toc.TitleEndLeast | docx_parser.py:28-29 | The title ends at the least position where `\s*\d*$` matches the rest without crossing a newline. No earlier end works. None means no end works. |
| Toc.Title | docx_parser.py:28-29 | A title holds no newline and is no longer than the text after the number. |
| Toc.TitleRecognised | docx_parser.py:28-29 | A newline-free title followed by a tail that `\s*\d*$` matches is the group found, when no earlier end of the title would do. |
| Toc.TitleSplit | docx_parser.py:28-29 | A found title is followed by a tail that `\s*\d*$` matches, and no shorter title leaves such a tail. |
| Toc.TitleAbsent | docx_parser.py:28-29 | No title is found exactly when no newline-free prefix leaves a tail that `\s*\d*$` matches. |
| Toc.NumberDot | docx_parser.py:28-29 | `\d+\.` at a position: a non-empty digit run ending right before a dot. |
| Toc.SectionMatch | docx_parser.py:28 | A section match has a non-empty number without '.'. |
| Toc.SectionRecognised | docx_parser.py:28 | Digits, a dot, whitespace, a title and a tail that `\s*\d*$` matches are matched as that number and that title. |
| Toc.SectionParts | docx_parser.py:28 | Every section match comes from such a line: digits, a dot, whitespace, the title and a matching tail. |
| Toc.SubsectionMatch | docx_parser.py:29 | A subsection match has a number containing '.'. |
| Toc.SubsectionRecognised | docx_parser.py:29 | "N.M." followed by whitespace, a title and a matching tail is matched as number "N.M" and that title. |
| Toc.SubsectionParts | docx_parser.py:29 | Every subsection match comes from such a line, with two non-empty digit runs in the number. |
| Toc.Classify | docx_parser.py:42-56 | A line gives a row exactly when one of the two patterns matches it, and the row is a section exactly when its number has no '.'. |
| Toc.SubsectionIsNotSection | docx_parser.py:42-56 | A line of the subsection shape never matches the section pattern, so the `elif` branch is the one taken. |
| Toc.LastSectionIsLatest | docx_parser.py:45-64 | The tracked id is the position of the latest section line, and no section line follows it; 0 when there is none. |
| Toc.EntryAt | docx_parser.py:45-64 | Row k has id k+1, the line's number and title as its name, and parent 0 for a section or the latest earlier section's id for a subsection. |
| Toc.EntriesSnoc | docx_parser.py:45-64 | One more contents line adds one row with the next id and updates the latest section. |
| Toc.ScanStep | docx_parser.py:31-40 | One paragraph only adds lines. Once stopped, nothing changes, and while still searching, nothing is collected. |
| Toc.Scan | docx_parser.py:31-40 | While the heading has not been seen, no line is collected. |
| Toc.StoppedStays | docx_parser.py:39-40 | After the first blank paragraph, later paragraphs change nothing. |
| Toc.SearchingUntilHeading | docx_parser.py:34-37 | Nothing is collected before the contents heading. |
| Toc.CollectingBody | docx_parser.py:39-64 | After the heading, every non-blank paragraph adds its matched line, if any. |
| Toc.ScanWindow | docx_parser.py:31-64 | The contents sheet is exactly the rows for the paragraphs after the first heading and before the first blank paragraph after it. |
| Toc.NoHeadingNoEntries | docx_parser.py:31-64 | A document without the contents heading gives no rows. |
| Toc.ReadParagraph | docx_parser.py:32-64 | One pass of the loop is one step of the scan: it finds the heading, stops at a blank paragraph, or adds the matched row, keeping the rows and the latest section id in step with the lines read. |
| Toc.ParseToc | docx_parser.py:22-64 | The loop builds exactly the contents sheet of the specification function. |
| Toc.ParseTocIfFound | attempt_5.1.py:108-154 | Same scan; nothing is saved exactly when there are no rows. |
| Tasks.MoveStar | docx_parser.py:91-93 | The number loses every '*'. |
| Tasks.MainPiece | docx_parser.py:87-116 | A main line's first row: the bare number with the star moved, or number plus marker when a second tab follows. The main number is a prefix of the row id. |
| Tasks.ExtraPiece | docx_parser.py:118-131 | A second row exists exactly when the stripped main number differs from the stripped number part without ')'. Its id extends the main number. |
| Tasks.LineRows | docx_parser.py:87-131 | A line's rows carry the chapter id. It fails on an unassigned main number exactly when a sub-item comes before any main line. |
| Tasks.LineRowsShape | docx_parser.py:87-131 | Every row id starts with the main number. A main line emits one or two rows and a sub-item line at most one. With a chapter id, only an unassigned main number fails. |
| Tasks.MainNumHasDot | docx_parser.py:87-93 | The main number left by a main line holds '.'. |
| Tasks.SubItemRow | docx_parser.py:118-131 | A sub-item line emits exactly one row: main number plus the number part without ')' and '*', with a star moved onto the text. |
| Tasks.PlainMainLine | docx_parser.py:87-102 | "N.\ttext" emits the single row ("N.", text). |
| Tasks.StarredMainLine | docx_parser.py:87-131 | "N*.\ttext" emits ("N.", "*text") and a second row "N.N." with the same text, because the '*' is still in the number part. |
| Tasks.MarkerMainLine | docx_parser.py:103-116 | "N.\tm)\ttext" emits the single row ("N.m", text). |
| Tasks.LineRowsRepeat | docx_parser.py:83-131 | Processing the same split again under the main number it left emits the same rows. |
| Tasks.CloseGapsOnlyDropsSpaces | docx_parser.py:78 | The number clean-up deletes whitespace and nothing else. |
| Tasks.CloseGapsNoDigits | docx_parser.py:78 | A text without digits is unchanged by the clean-up. |
| Tasks.CloseNumberGaps | docx_parser.py:78 | The cleaned text has the same non-whitespace characters, in the same order, as the text. |
| Tasks.NumberGapClosed | docx_parser.py:78 | A text that starts with digits, a dot and whitespace loses that whitespace, and the rest is cleaned on its own. |
| Tasks.DocxStep | docx_parser.py:73-131 | A paragraph only appends rows. It fails on unassigned parts exactly when it is not a contents name, has no tab and no earlier split exists. |
| Tasks.DocxStepRows | docx_parser.py:79-131 | Rows added carry the chapter id in force, and an assigned main number holds '.'. |
| Tasks.DocxFailureStays | docx_parser.py:73-131 | Once an error is raised, later paragraphs change nothing. |
| Tasks.DocxRegionBefore | docx_parser.py:74-76 | The paragraphs read are exactly those before the first one containing the answers heading. |
| Tasks.DocxStopsAtAnswers | docx_parser.py:74-76 | Nothing from the answers heading on contributes a row. |
| Tasks.TocNameSetsParagraph | docx_parser.py:78-81 | A contents name emits no row and sets the chapter id. |
| Tasks.StaleLineRepeats | docx_parser.py:83-131 | A tab-less, non-contents paragraph after a split line emits that line's rows a second time. |
| Tasks.DocxRun | docx_parser.py:73-131 | After any number of paragraphs, the chapter id in force and every row's chapter id are values of the contents map. |
| Tasks.DocxTasks | docx_parser.py:68-131 | Every row written carries a chapter id taken from the contents map. |
| Tasks.ParseTasks | docx_parser.py:68-131 | The loop gives exactly the rows, or the error, of the specification function. |
| Tasks.AttemptStep | attempt_5.1.py:38-102 | A paragraph only appends rows, a skipped paragraph changes nothing, and the only error is an unassigned main number. |
| Tasks.AttemptRunKeeps | attempt_5.1.py:38-102 | Every row has the constant columns ("Отсутствует", 1, "5;6", 1, 1), and the main number holds '.'. |
| Tasks.AttemptRowsConstant | attempt_5.1.py:63-102 | Every saved row has the constant columns. |
| Tasks.AttemptFailureStays | attempt_5.1.py:38-102 | Once an error is raised, later paragraphs change nothing. |
| Tasks.AttemptRunOnlyError | attempt_5.1.py:38-102 | The only error the loop can raise is an unassigned main number. |
| Tasks.AttemptOnlyError | attempt_5.1.py:38-102 | The parser fails only on an unassigned main number. |
| Tasks.SkippedChangeNothing | attempt_5.1.py:42-49 | Paragraphs with a skip phrase or without a tab change nothing, wherever they stand. |
| Tasks.AttemptStopsAtAnswers | attempt_5.1.py:40-41 | Nothing from the answers heading on contributes a row. |
| Tasks.ParseTasksSkipping | attempt_5.1.py:8-102 | The loop gives exactly the rows, or the error, of the specification function. |
| Answers.NextNumberDot | docx_parser.py:138 | The lazy block content ends at the first number-with-dot after it, or at the end; no number-with-dot lies before that. |
| Answers.BlockAt | docx_parser.py:138 | The block pattern matches at p exactly when a number-with-dot starts there. The number group is the whole digit run at p, the matched text is that number, its dot and the content group, and the match ends at the end of the text or where the next number-with-dot starts. |
| Answers.Blocks | docx_parser.py:150 | There are at most as many blocks as characters, and none when no number-with-dot occurs. |
| Answers.BlocksTile | docx_parser.py:138-150 | The blocks tile the text: their numbers, dots and contents joined give back the text from the first number-with-dot on, and there is at least one block when a number-with-dot occurs. |
| Answers.BlocksShape | docx_parser.py:150-152 | Every block number is a non-empty digit run, and no block's content holds a number followed by a dot. |
| Text.SplitPieces | docx_parser.py:154 | No piece of `split(';')` holds a ';'. |
| Text.JoinSplit | docx_parser.py:154 | Joining the pieces of a split with the separator gives back the text. |
| Answers.Items | docx_parser.py:154 | Items are non-empty, stripped and free of ';'. |
| Answers.ItemsNoSeparator | docx_parser.py:154 | Content without ';' gives the stripped content as its single item, or no item when it is blank. |
| Answers.ItemsAppend | docx_parser.py:154 | The items of two contents joined by ';' are the items of the first followed by those of the second. |
| Text.SplitAppend | docx_parser.py:154 | Splitting two texts joined by the separator gives the pieces of the first followed by those of the second. |
| Answers.MarkerLen | docx_parser.py:140 | A matched marker is a small Cyrillic letter or digits followed by ')'. |
| Answers.UpToStop | docx_parser.py:140 | The answer group is a prefix with no stop before its last character, and it ends at a stop or at the end of the text. |
| Answers.ItemMatch | docx_parser.py:157-159 | The item pattern matches every item, so the `continue` branch is never taken. |
| Answers.CleanAnswer | docx_parser.py:170 | A cleaned answer has no surrounding whitespace. |
| Answers.CleanDropsMark | docx_parser.py:170 | A stripped answer followed by one punctuation mark loses exactly that mark. |
| Answers.CleanKeeps | docx_parser.py:170 | A stripped answer that does not end in punctuation is unchanged. |
| Answers.CleanDropsOnlyOneMark | docx_parser.py:170 | Of two trailing commas, only the last is dropped. |
| Answers.ItemId | docx_parser.py:161-168 | The id starts with the block number. With a marker, the number is followed by '.' and the marker with no ')'. |
| Answers.ItemRecord | docx_parser.py:156-170 | A record's id starts with the block number, and its answer is stripped. |
| Answers.AnswerHasNoStop | docx_parser.py:161-170 | A recorded answer holds no '.' and no ';' and is stripped. |
| Answers.LetterMarkerId | docx_parser.py:164-166 | An item "x)…" gets id "N.x". |
| Answers.NumberMarkerId | docx_parser.py:164-166 | An item "12)…" gets id "N.12". |
| Answers.UnmarkedItem | docx_parser.py:167-168 | An unmarked item gets id "N." (docx_parser.py) or "N" (parse_answers_2.py). A punctuation-free item is its own answer. |
| Answers.UnmarkedItemId | docx_parser.py:164-168 | Any item without a marker gets the id "N." (or "N" in parse_answers_2.py), whatever its text. |
| Answers.UnmarkedAnswer | docx_parser.py:161-170 | An unmarked stripped item with no stop before its last character has as answer the item itself, cleaned. |
| Answers.ToMap | docx_parser.py:170 | Every record's id is a key, and the last record's id maps to its answer. |
| Answers.ToMapLastWins | docx_parser.py:170 | An id is in the dictionary exactly when some record has it, and it maps to the last such record's answer. |
| Answers.ToMapKeysFrom | docx_parser.py:170 | Every key of the dictionary is some record's id. |
| Answers.RecordsOf | docx_parser.py:150-170 | With unmarked items numbered "N.", every record id holds a dot. |
| Answers.DottedIds | docx_parser.py:161-168 | Within a block, every id holds the dot after the block number. |
| Answers.AnswersText | docx_parser.py:144-148 | The answers text is no longer than the joined text, and it is empty when the answers heading is missing. When both headings occur, it is the joined text from the answers heading up to the contents heading, or empty when the contents heading comes first. |
| Answers.AnswerTable | docx_parser.py:135-170 | Every key of the answer dictionary holds a dot, as the task ids do. |
| Answers.FillAnswers | docx_parser.py:173 | The lookup keeps the number of task rows. |
| Answers.FilledAnswers | docx_parser.py:173 | A row whose id has a record gets the last such answer, any other row gets "Отсутствует", and the other columns are unchanged. |
| Answers.ParseAnswers | docx_parser.py:135-173 | The loops fill exactly the dictionary of the specification and apply it to the rows. |
| Answers.AnswerList | parse_answers_2.py:17-26 | The result is None exactly when the joined text lacks the answers heading. |
| Answers.RegionWithoutContents | parse_answers_2.py:21-26 | Without the contents heading, the slice ends one character before the end of the text. |
| Answers.BlockRecordIds | parse_answers_2.py:36-62 | One record per item, in order. A record's id is the number followed by `bare` exactly when its item has no marker. A marked item's id starts with the number and a dot. |
| Answers.ParseAnswerList | parse_answers_2.py:5-62 | The loops build exactly the record list of the specification function. |
| AnswersByParagraph.MatchAt | parse_answers_1.py:12-16 | The pattern matches at p exactly when a number-with-dot starts there, and the match is non-empty. |
| AnswersByParagraph.MatchAtGroups | parse_answers_1.py:12-16 | The three groups read back from the text: the number is a whole digit run followed by the dot; after the greedy whitespace comes the marker, which is exactly the text `[а-я]\)` or `\d+\)` reads there, of that length, and absent exactly when nothing can be read there; after the second greedy whitespace the answer runs to the match end, with no ';' or '.' before its last character, and ends at one of them unless the text ends. |
| AnswersByParagraph.MatchesFromFirst | parse_answers_1.py:35-36 | `finditer` finds its first match at the first number-with-dot and resumes at that match's end; with none left it finds nothing. |
| AnswersByParagraph.LetterAfterDot | parse_answers_1.py:12-16 | Digits, a dot, whitespace, a letter marker "x)", whitespace and an answer group that does not start with whitespace and ends at its first ';' are matched as that number, that marker and that group. |
| AnswersByParagraph.MarkerAt | parse_answers_1.py:14 | A marker has at least two characters and starts with a small Cyrillic letter or a digit. |
| AnswersByParagraph.MarkerAtReads | parse_answers_1.py:14 | The marker group is present exactly when `[а-я]\)` or `\d+\)` matches at its position, and it is then exactly the text matched there, ending in ')'. |
| AnswersByParagraph.ParseAnswersByParagraph | parse_answers_1.py:18-56 | The paragraph loop builds exactly the records of the specification function. |
| AnswersByParagraph.AddMatches | parse_answers_1.py:35-56 | The inner loop appends exactly one paragraph's records. |
| AnswersByParagraph.Step | parse_answers_1.py:18-56 | A paragraph only adds records. Before the heading it adds none, and once stopped nothing changes. The loop stops only at a paragraph containing "Оглавление" after the heading. |
| AnswersByParagraph.MatchRecord | parse_answers_1.py:37-56 | The id is the number alone when the marker group did not match, and the number, '.' and the marker's first character when it did. The answer is stripped. |
| AnswersByParagraph.LetterMarkerRecord | parse_answers_1.py:35-56 | A paragraph "N. x) text; …" with a letter marker gives as first record the id "N.x" and the answer "text". |
| AnswersByParagraph.StoppedStays | parse_answers_1.py:30-31 | After the contents heading, later paragraphs change nothing. |
| AnswersByParagraph.FirstFromIsFirst | parse_answers_1.py:22-31 | The heading search returns the first paragraph that matches. |
| AnswersByParagraph.ParagraphAnswersBetween | parse_answers_1.py:18-56 | No answers heading gives no records. Otherwise the records are those of the paragraphs strictly between the first answers heading and the first later paragraph containing "Оглавление". |
| AnswersByParagraph.EmptyParagraph | parse_answers_1.py:28-29 | An empty paragraph adds no record. |
| AnswersByParagraph.MatchesWellFormed | parse_answers_1.py:35-39 | Every match has a digit-only number and a marker that starts with a letter or a digit. |
| AnswersByParagraph.ParagraphRecordsClean | parse_answers_1.py:37-56 | Every record's id is the number or number "." one character, and its answer is stripped and holds no '.' or ';'. |
| AnswersByParagraph.NoNumberNoRecords | parse_answers_1.py:35 | A paragraph without a number followed by a dot gives no record. |
| AnswersByParagraph.NumberedMarkerFirstDigit | parse_answers_1.py:38-46 | For "N.12)…" the id is "N.1": only the marker's first character is kept. |
| Filters.FixDifficult | filters.py:13-25 | The number loses every '*' and keeps every other character. A number without '*' is returned unchanged. |
| Filters.CleanedNumber | filters.py:14-16 | The cleaned number is the number with every '*' removed, in order. |
| Filters.StarDroppedInPlace | filters.py:14-16 | A single '*' inside a number is removed and the characters around it close up. |
| Text.RemoveCharAppend | filters.py:14-16 | Removing a character from two joined texts removes it from each. |
| Filters.NoStarNoChange | filters.py:14-23 | Without '*' in the number, a text comes back unchanged. |
| Filters.StarMovesToText | filters.py:14-23 | With '*' in the number, a text gains exactly one leading '*'. |
| Filters.ListCase | filters.py:18-21 | A list with an index keeps its length. Only the element at an in-range index changes, and it gains '*' exactly when the number had one. |
| Filters.OutOfRangeIndex | filters.py:20 | An out-of-range index leaves the list copy equal to the list. |
| Filters.ListWithoutIndex | filters.py:18-23 | A list without an index is treated as its `str()` text. |
| Filters.FixIdempotent | filters.py:13-25 | Applying the filter to its own result changes nothing. |
| Classifier.ParseInt | classifier.py:132 | `int()` succeeds only on text that is not all whitespace. |
| Classifier.ParseShow | classifier.py:132 | `int(str(n)) == n` for every integer. |
| Classifier.Decode | classifier.py:123-139 | A topic id is returned only when the threshold is met, the index is not ignored, the label maps know the index, the raw id is not "NO_LABEL" and the id is what `int()` reads from it. |
| Classifier.Threshold | classifier.py:124 | A configured level uses its own threshold and any other level the default 0.05, so every threshold used is a configured one or 0.05. |
| Classifier.RejectedPrediction | classifier.py:124-125 | Below the threshold, or at the ignore index, there is no topic. |
| Classifier.UnknownIndex | classifier.py:126-128 | An unknown level or index gives no topic. |
| Classifier.AcceptedPrediction | classifier.py:128-138 | "NO_LABEL" gives no topic. An integer id gives its name or "ID_n (имя не найдено)". Anything else gives "ID_raw (некорректный формат)". |
| Classifier.IntegerIdKept | classifier.py:131-136 | An integer raw id is returned as the topic id. |
| Classifier.ShownIdKept | classifier.py:129-136 | A raw id that is an integer written out is read back as that integer. |
| Classifier.ShowHasNoLabel | classifier.py:129 | An integer written out never contains "NO_LABEL". |
| Classifier.Levels | classifier.py:159-164 | Each text has exactly `maxLevels` slots. |
| Classifier.LevelsShape | classifier.py:159-164 | Slots past the last head hold no topic. |
| Classifier.PredictHierarchical | classifier.py:142-166 | No texts gives an empty result. More heads than level slots raises the index error. Otherwise there is one list per text, each holding the decoded head results. |

## Left out

- Reading the Word document, and reading or writing Excel sheets. Paragraphs
  come in as a sequence of strings, and sheets go out as sequences of rows.
- In `parse_docx_to_excel`, the contents dictionary comes in as a map. The
  `None` that `excel_to_dict` returns for a missing file, and Excel's type
  coercion of names, ids and `id_tasks_book` values, are not modelled.
- `\d` is ASCII digits only. Python also accepts other Unicode decimal
  digits, and `int()` reads them.
- `lower()` covers ASCII and basic Cyrillic only. That is enough for the
  comparison with "оглавление".
- The two task parsers name the answer column differently.
  `attempt_5.1.py` writes its sheet with an `answers` column (lines 66, 81
  and 97). `docx_parser.py` writes `answer` (lines 97, 111 and 126) and
  fills `answer` (line 173). The whole-sheet rewrite is not modelled.
  `Answers.FillAnswers` models the lookup on the `id_tasks_book` column.
- Classifier:
  - preprocessing, the tokenizer, the network, softmax and argmax are not
    modelled. Each head's arg-max index and probability come in as data;
  - probabilities are reals, with no floating-point rounding or NaN;
  - raw ids are integers or texts only;
  - a level map without an `index_to_id` key, which would raise `KeyError`,
    is not modelled;
  - heads map to levels by position.
- Filters.FixDifficult: Python's `str()` of a list is a parameter, because
  its quoting rules are not modelled.
- MatchAt: its own contract states only when the pattern matches and that
  the match is non-empty. `MatchAtGroups` states the three groups of every
  match, and `LetterAfterDot` states the converse for a letter marker.
- MarkerAt: its own contract states only the marker's shape. That it is
  exactly the text the marker alternative reads, of that length, is stated by
  `MarkerAtReads`, so that the definitions using `MarkerAt` stay cheap to
  verify.
- AnswersByParagraph.ParagraphRecordsClean: the cleanliness of ids and answers
  is stated per paragraph. Together with `ParagraphAnswersBetween`, it
  covers the whole scan; there is no single lemma over all records.
- Printing, `sleep`, and the `__main__` entry points are left out as I/O.
- `ai_solution.py`, `decorators.py`, `variant_1.py` and `utils.py` are not
  part of this model, and neither is the topic-processing code in
  `classifier.py`.
- `StarredMainLine`: a starred main number with a single task piece yields a
  second row "N.N.", and the model keeps this. In `docx_parser.py`, lines
  91-93 take the star off `main_num` only. Line 118 rebuilds `slave_num`
  from `id_part`, which still holds the star. So the test at line 119
  passes, and lines 123-131 write the row "N.N." after the star moves onto
  the text. `attempt_5.1.py` does the same.
