# Quiz engine of the Python quiz page

A Dafny model of the quiz logic inside the Streamlit page `app-test-py.py`.
The page offers multiple-choice questions grouped by chapter and tracks a
running score in a session. When a quiz ends it bands the score and appends
a result record to a history file. The model covers:

- **Session** (`Quiz.Session`): a class with the session entries `user`, `skip`,
  `questions`, `total`, `index`, `score` and `answered`. The flag `started`
  says whether the five quiz entries are present. Its methods are the
  page's transitions: login, skip, start, answer, restart and reselect.
  `Valid()` is the invariant every transition keeps:
  `score <= answered == index <= total == |questions|`, and a logged-in user
  is a stripped name ending in `@gmail.com`.
- **Question pool** (`Quiz.Pool`): the selected chapters' questions,
  concatenated in selection order. Start loops over the selection to build
  it, then takes some permutation of it; the model does not say which.
- **Answer check** (`Quiz.IndexOf`, `Quiz.IsCorrect`): the position of the
  first option equal to the choice, compared with `answer_index`.
- **Submission** (`Quiz.Submit`): an answer followed by the completion check
  `index >= total`. A choice that is not one of the options stops at the
  ValueError of `options.index`, before any update. On completion the score is banded and one record is
  appended to the history.
- **Score bands** (`Scoring`): the if/elif chain on `pct = score / answered * 100`
  with inclusive lower bounds 75, 50 and 25. The percentage is an exact
  `real`. An integer form compares `100 * score` with `k * answered`, and
  the two forms are proved to agree.
- **Result history** (`Results`): the file is `None` until it exists. A
  missing file reads as the empty history. Recording loads the history,
  appends one record and saves the whole list. The results page's filter
  keeps a logged-in user's records in order, or every record when nobody is
  logged in.
- **Login rule** (`Identity`, `Text`): Python's `str.strip()` (with the full
  `str.isspace()` character set) and `str.endswith`.

Behaviours of the code worth knowing, all kept in the model:

- Restart does not reshuffle. It only zeroes `index`, `score` and
  `answered` (lines 149-151).
- A selection whose chapters hold no questions still starts a quiz with an
  empty queue. Only an empty selection stops the page, and it does so before
  the start button is offered (lines 76-78).
- The counters keep `answered == index`, not merely `index <= answered`.
- The recorded chapters are the selection at the moment of completion
  (line 136). The model passes that selection to `Submit`.

## Model

| member | source | states |
|---|---|---|
| Text.TrimStart | app-test-py.py:53 | the result is a suffix of the input, everything dropped is whitespace, and the result does not start with whitespace |
| Text.TrimEnd | app-test-py.py:53 | the result is a prefix of the input, everything dropped is whitespace, and the result does not end with whitespace |
| Text.Strip | app-test-py.py:53 | `email.strip()` has no leading or trailing whitespace and is no longer than its input |
| Text.EndsWith | app-test-py.py:53 | `s.endswith(suffix)`: the suffix fits and the last `len(suffix)` characters are the suffix (specification predicate; its properties are the Identity lemmas) |
| Text.StripIsSlice | app-test-py.py:53 | the stripped string is a slice `s[i..j]` with only whitespace outside it |
| Text.StripIdempotent | app-test-py.py:53-54 | stripping the stored name again changes nothing |
| Text.StripPadded | app-test-py.py:53 | one whitespace character on each side of a trimmed string is removed |
| Identity.AcceptsEmail | app-test-py.py:53 | the login rule: the stripped identifier ends with `@gmail.com` (specification predicate for `Login`) |
| Identity.AcceptedNameStable | app-test-py.py:53-54 | the stored name passes the login rule again and is its own strip |
| Identity.RefusesOtherDomain | app-test-py.py:53-57 | `a@b.com` is refused |
| Identity.AcceptsGmail | app-test-py.py:53-54 | `user@gmail.com` is accepted and stored as it is |
| Identity.AcceptsPaddedGmail | app-test-py.py:53-54 | whitespace around a Gmail address is dropped before the check and from the stored name |
| Quiz.Session.constructor | app-test-py.py:35-38 | a new session has no user, skip is false and no quiz is present |
| Quiz.Session.LoginFormShown | app-test-py.py:47 | the form is offered exactly while the user is None and skip is false (specification predicate for `Login` and `Skip`) |
| Quiz.Session.Login | app-test-py.py:47-57 | login is accepted iff the form is shown and the stripped identifier ends with `@gmail.com`; then the user becomes the stripped string, otherwise the user is unchanged |
| Quiz.Session.Skip | app-test-py.py:47-60 | skip is set when the form was shown, and afterwards the form is no longer offered |
| Quiz.Pool | app-test-py.py:83-85 | the selected chapters' question lists concatenated in selection order (specification function for `Start`; see the three Pool lemmas) |
| Quiz.PoolConcat | app-test-py.py:83-85 | pooling a selection split in two is pooling each part and concatenating, in order |
| Quiz.PoolSize | app-test-py.py:83-87 | the pool holds as many questions as the selected chapters together |
| Quiz.PoolMembers | app-test-py.py:83-85 | a question is in the pool iff one of the selected chapters holds it |
| Quiz.Session.Start | app-test-py.py:76-91 | with no selection nothing changes; otherwise the queue is a permutation (as a multiset) of the selected chapters' questions in selection order, `total` is its length and the counters are 0 |
| Quiz.IndexOf | app-test-py.py:108 | `options.index(choice)` is the first position holding the choice |
| Quiz.IsOption | app-test-py.py:105-108 | the radio value is one of the current question's options, i.e. `options.index(choice)` does not raise |
| Quiz.IsCorrect | app-test-py.py:108 | `options.index(choice) == answer_index` (specification predicate for `Answer`) |
| Quiz.CorrectIffAnswerOption | app-test-py.py:108 | with distinct options and an answer index in range, a choice is correct iff it is the option at `answer_index` |
| Quiz.NeverCorrect | app-test-py.py:108 | with `answer_index` outside the options, no choice is ever correct |
| Quiz.Session.Answer | app-test-py.py:105-115 | a choice that is not an option changes nothing (the ValueError of line 108); otherwise `answered` and `index` grow by exactly 1, `score` grows by 1 iff the choice is correct, the matching feedback is returned, and the queue and total are untouched |
| Quiz.RenderAsWritten | app-test-py.py:99-103 | the display guard as written: IndexError when `index >= len(questions)`, "finished" otherwise |
| Quiz.RenderAsWrittenNeverShows | app-test-py.py:99-103 | the display guard as written never shows a question: a fresh non-empty quiz reads as finished, and index `len(questions)` fails to index |
| Quiz.Render | app-test-py.py:99-103 | corrected guard: a question is shown iff `index < len(questions)`, and it is `questions[index]` |
| Quiz.Session.CurrentScreen | app-test-py.py:94-103 | with a quiz present, a question is shown iff the quiz is not complete, and it is the one at `index` |
| Quiz.Session.Completed | app-test-py.py:118 | the quiz is complete when `index >= total` (used by `Submit` and `CurrentScreen`) |
| Quiz.Submit | app-test-py.py:107-142 | a choice that is not an option changes neither the session nor the file; otherwise the answer's counter updates; completion happens iff `index >= total` afterwards; at completion `answered > 0`, the band is taken over `answered`, and the history gains exactly one record (user label, chapters, score, answered) at its end, otherwise the file is untouched |
| Quiz.Session.Restart | app-test-py.py:147-151 | counters are zeroed; the queue, its order and the total are kept |
| Quiz.Session.Reselect | app-test-py.py:154-157 | all five quiz entries are dropped and no quiz remains |
| Quiz.ShuffleOfTwo | app-test-py.py:86 | a shuffle of two questions is one of their two orders |
| Quiz.TwoOptionChoices | app-test-py.py:108 | for a two-option question, the option at the answer index is correct and the other is not |
| Quiz.AnswerRightThenWrong | app-test-py.py:107-142 | a fresh two-question quiz answered right then wrong, with no login and no history file, ends at 1 of 2, band good, with exactly one guest record |
| Quiz.LoopsScenario | app-test-py.py:81-142 | one chapter of two questions answered right then wrong, with no login: score 1 of 2, band good, and the history is exactly one guest record for that chapter |
| Scoring.Percent | app-test-py.py:121 | `pct = score / answered * 100` as an exact real; it is non-negative and at most 100 when `score <= answered` |
| Scoring.BandOfPercent | app-test-py.py:123-130 | the if/elif chain on `pct`; the band's lower bound is at most `pct` and, below excellent, `pct` is under the next bound |
| Scoring.BandOf | app-test-py.py:123-130 | the same chain as `100 * score >= k * answered`; the band's lower bound times `answered` is at most `100 * score` |
| Scoring.PercentAtLeast | app-test-py.py:121-129 | `pct >= k` iff `100 * score >= k * answered` |
| Scoring.BandOfMatchesPercent | app-test-py.py:121-130 | the integer banding equals the source's chain on the exact percentage |
| Scoring.BandRange | app-test-py.py:123-130 | each band is exactly its range: its lower bound inclusive, the next band's lower bound exclusive |
| Scoring.BandMonotonic | app-test-py.py:123-130 | more correct answers over the same number answered never give a lower band |
| Scoring.BandExamples | app-test-py.py:123-130 | 80, 60, 30 and 10 percent fall in the four bands, and exactly 75, 50 and 25 percent take the higher band |
| Results.LoggedIn | app-test-py.py:171 | Python truthiness of the session user: None and "" are both "nobody logged in" |
| Results.UserLabel | app-test-py.py:135 | the label a record is filed under: the user when logged in, else "Invité" (specification function; its property is OwnRecordVisible) |
| Results.Load | app-test-py.py:20-25 | reading the results file: a missing file reads as the empty history |
| Results.ResultsStore.Append | app-test-py.py:133-142 | the history grows by exactly one record at its end, every earlier record is unchanged, and with no file the history becomes just that record |
| Results.RecordsOf | app-test-py.py:172 | every kept record is in the history and belongs to the user |
| Results.Visible | app-test-py.py:171-174 | a logged-in user sees only their own records, and with no user the whole history is returned |
| Results.RecordsOfMembers | app-test-py.py:172 | a record is kept iff it is in the history and filed under the user |
| Results.RecordsOfConcat | app-test-py.py:172 | filtering commutes with concatenation, so kept records keep their order |
| Results.RecordsOfIdempotent | app-test-py.py:172 | filtering twice is filtering once |
| Results.VisibleAfterAppend | app-test-py.py:171-174 | after an append, a view gains the new record exactly when it shows everyone's records or the record is the viewer's |
| Results.VisibleExcludesGuests | app-test-py.py:171-174 | a Gmail user's view never shows a guest record |
| Results.OwnRecordVisible | app-test-py.py:135 | the record filed under `user or "Invité"` always joins that session's results view, at its end: the label of line 135 and the filter of lines 171-174 agree |
| Quiz.SessionViewExcludesGuests | app-test-py.py:171-174 | under the session invariant, a logged-in user's view never shows a guest record |

## Left out

- Rendering and control flow of the page framework are not modelled. This covers progress bars, radio buttons, columns, messages, `st.stop`, reruns, and sidebar and page navigation (lines 41-42, 66-78, 97-98, 104-105, 145-163). The library's semantics are not visible. Under its rerun model, the restart and reselect buttons (lines 147-158) are drawn only inside the run in which "Valider" was pressed, so a click on them may never reach their handlers. The model treats restart and reselect as reachable transitions.
- The quit button (lines 159-161) only stops the page and changes no state.
- JSON reading and writing, `os.path.exists` and the parse-error report (lines 10-31) are not modelled. The question bank is a given map, and the results file is an optional sequence of records.
- The `@st.cache_data` memoisation (line 9) is not modelled. It is caching, not behaviour.
- `random.shuffle` (line 86) is not modelled as an algorithm. Start picks some permutation of the pool, specified only by multiset equality.
- Floating-point `pct`, `round(pct, 1)` and the `:.1f` formatting are left out; the percentage is an exact real. Reals and floats give the same bands for any `answered` below 10^15: a percentage that is not exactly on a boundary lies at least `25 / answered` away from it. The record's `pct` field is not modelled.
- Results.ResultsStore.Append is one atomic update by a single writer. The source's read-modify-write of the whole file (lines 133-142) loses a record when two sessions finish at the same time; concurrency is not modelled.
- The progress ratio `idx / total` (line 97) is not modelled. With an empty queue it divides by zero.
- The `datetime.now()` timestamp (line 140) is not modelled. It is a clock read, and the record carries no date.
- The inverted display guard (lines 99-103) appears only in the finding below. The rest of the model uses the corrected guard, and `Answer` requires `index < |questions|`.

## Findings

| source | as written | input that shows it | evidently intended | confidence | as-written member | corrected member |
|---|---|---|---|---|---|---|
| app-test-py.py:99-103 | `questions[idx]` is read only when `idx >= len(questions)`; otherwise the quiz is declared finished | a fresh non-empty quiz (index 0) is declared finished at once and, with nothing to answer, never leaves index 0; IndexError needs index `len(questions)`, i.e. an empty queue, where line 97's `idx / total` raises ZeroDivisionError first | show `questions[idx]` while `idx < len(questions)`, and declare the quiz finished once the index reaches the end | high, not executed | Quiz.RenderAsWritten, Quiz.RenderAsWrittenNeverShows | Quiz.Render, Quiz.Session.CurrentScreen |
