# Viva Q&A review app: verified model of its question navigation

The app is a Streamlit study aid. Its "Viva Q&A" tab loads a CSV file of
question records. It lets the user pick sections in a multiselect, then pages
through the picked questions one at a time with First / Previous / Next /
Last / Random buttons. Almost all of `app.py` is widget and HTML plumbing. This
project models the three pieces of sequential logic inside it and proves
their properties:

- **Column-schema resolution** (`schema.dfy`, module `Schema`). This is the
  header normalisation in `load_qa_data`:
  - a `Question Number` header is renamed to `question_num`;
  - otherwise a 4-column file gets the names `Section, question_num, Question, Answer`;
  - otherwise a 3-column file gets `question_num, Question, Answer`;
  - anything else passes through unchanged.
- **Section filter and orderer** (`sections.dfy`, module `Sections`). It keeps
  the rows of the picked sections. It orders them by the section's position in
  the pick list (an ordered categorical), then by question number. An empty
  pick list yields an empty list.
- **Navigation cursor** (`cursor.dfy`, module `Cursor`). This is the integer
  `current_index`. It is clamped to the filtered list, and the five buttons
  move it. Previous and Next saturate at the ends. Random lands anywhere in the
  list.
- **One render cycle and a session** (`viva.dfy`, module `Viva`). This is the
  `viva_tab` control flow:
  - load the file and read its `Section` column;
  - initialise the session cursor;
  - filter and sort the pick, which reads `question_num`;
  - stop with a warning when nothing is picked;
  - clamp the cursor and apply the pressed button;
  - show the row under the cursor, which reads `Question` and then `Answer`.

  A read of a column the resolved header lacks raises a KeyError in the app.
  The model ends that cycle in a `MissingColumn` view naming the column. A sort
  by a `question_num` label the header holds twice raises a ValueError. The
  model ends that cycle in a `DuplicateColumn` view. A session is modelled as
  a run of such cycles.

Session state is an explicit `Session` value passed into and returned from
each cycle. The widgets' outputs are inputs to the model: the pick list, the
pressed button, and the value `random.randint` drew. The CSV parser's output
is an input too, and it is `None` when the parser raised.

A 3-column file gets `question_num, Question, Answer` (app.py:31) and no
`Section` column. It is not read as one implicit section: `viva_tab` reads
`df['Section']` unguarded (app.py:111), which raises. `Viva.Render` ends that
cycle in the `MissingColumn` view for `Section`.
`Viva.ThreeColumnFileMissesSection` proves that every such file ends there.

The comment at app.py:26 names the 4-column layout `Section, Question Number,
Question, Answer`. The rename at app.py:27-28 comes first, so a `Question
Number` header is renamed even in a 3- or 4-column file and is never
positionally relabelled. A second resolution of such a header would relabel a
4-column one, so `Schema.ResolveStableWithoutHeader` states stability only for
headers without `Question Number`. The rename also keeps an existing
`question_num` column, so a file with both labels ends up with two
`question_num` columns. `Viva.RepeatedQuestionNumFails` proves that such a
file fails at the sort.

## Model

| member | source | states |
|---|---|---|
| Schema.RenameQuestionNumber | app.py:27-28 | every `Question Number` label becomes `question_num`, every other label and the column count are kept, and no `Question Number` label remains |
| Schema.ResolveColumns | app.py:26-32 | count preserved in every branch; with a `Question Number` header each such label becomes `question_num` and every other label is kept; otherwise 4 columns get `Section, question_num, Question, Answer`, 3 get `question_num, Question, Answer`, any other width is unchanged |
| Schema.SectionColumnAfterResolve | app.py:27-32 | the resolved header has a `Section` column iff the file had 4 columns and no `Question Number`, or it already had `Section` and was not positionally renamed to 3 columns |
| Schema.QuestionNumAfterResolve | app.py:27-32 | the resolved header has `question_num` iff the file had `question_num` or `Question Number`, or had 3 or 4 columns |
| Schema.RenamedLabelCount | app.py:28 | renaming every label `a` to `b` leaves as many `b` labels as there were `a` and `b` labels together |
| Schema.RenameCountsQuestionNum | app.py:27-28 | after the rename, the number of `question_num` labels is the number of `Question Number` labels plus the number of `question_num` labels before it |
| Schema.QuestionNumCountAfterResolve | app.py:27-32 | the resolved header has that sum of `question_num` labels when the file has `Question Number`, exactly one after positional naming of 3 or 4 columns, and otherwise as many as the file had |
| Schema.ResolveStableWithoutHeader | app.py:29-32 | without a `Question Number` header, resolving twice equals resolving once |
| Sections.Position | app.py:148-152 | the model's sort rank of a section: its first index in the pick list when picked (the ordered categorical's code), and the pick list's length exactly when not picked; only picked rows reach the sort, so that value never orders anything |
| Sections.Select | app.py:146 | the filter keeps each row with its full multiplicity iff its section is picked, and never grows the list |
| Sections.SelectKeepsPickedRows | app.py:146 | when every row's section is picked, the filter returns the rows unchanged, in loaded order |
| Sections.Insert | app.py:153 | inserting into a key-sorted list keeps it sorted and adds exactly that row |
| Sections.SortRows | app.py:153 | the result is a permutation of the input, sorted by (section position, question number) |
| Sections.FilterAndOrder | app.py:143-155 | empty pick list gives an empty list; as a multiset the result is exactly the rows of picked sections; it is sorted by (section position, question number); it is no longer than the loaded rows |
| Sections.FilteredRowsArePicked | app.py:146 | every shown row was loaded and belongs to a picked section |
| Sections.SortedPickOrder | app.py:148-153 | in any list sorted by the composite key, two picked rows of different sections stand in the order their sections were picked, and conversely |
| Sections.PickOrderBetweenSections | app.py:148-153 | for rows of different sections, r[i] precedes r[j] iff r[i]'s section was picked before r[j]'s |
| Sections.QuestionOrderWithinSection | app.py:153 | within a section, question numbers never decrease |
| Sections.PickedSectionsAppear | app.py:132-146 | a picked section offered by the rows contributes a row, so a non-empty pick from the multiselect never yields an empty list |
| Sections.AllSectionsKeepEveryRow | app.py:128-146 | picking every section (the default) keeps every loaded row: "Showing N of N" |
| Sections.PickOrderExample | app.py:143-155 | rows (A,1), (A,2), (B,1) with pick list [B, A] are shown as (B,1), (A,1), (A,2) |
| Cursor.Clamp | app.py:177-179 | the clamp never raises the index; it leaves the index alone iff it is below N; an index of N or more becomes N-1; a non-negative index lands in [0, N) when N > 0 |
| Cursor.Apply | app.py:186-214 | from an in-range index every button stays in [0, N); First gives 0, Last gives N-1, Random gives the drawn value, Previous gives max(i-1, 0), Next gives min(i+1, N-1) |
| Cursor.ClampIdempotent | app.py:177-179 | clamping twice is clamping once |
| Cursor.SaturatingEnds | app.py:194-203 | Previous at 0 stays at 0; Next at N-1 stays at N-1 |
| Cursor.PreviousUndoesNext | app.py:194-203 | away from the ends, Previous undoes Next and Next undoes Previous |
| Cursor.SingleQuestion | app.py:186-214 | with N = 1 every button, Random included, yields index 0 |
| Cursor.RandomReachesExactlyTheList | app.py:211-213 | over all draws, Random lands on exactly the indices 0..N-1 |
| Cursor.Repeat | app.py:193-203 | pressing one button repeatedly from an in-range index stays in range |
| Cursor.NextRepeated | app.py:199-203 | m presses of Next from i give min(i+m, N-1) |
| Cursor.NextReachesLast | app.py:199-208 | N-1 presses of Next from anywhere reach the question Last jumps to |
| Cursor.PreviousRepeated | app.py:193-197 | m presses of Previous from i give max(i-m, 0) |
| Cursor.PreviousReachesFirst | app.py:188-197 | N-1 presses of Previous from anywhere reach the question First jumps to |
| Viva.LoadQaData | app.py:17-36 | a parser failure gives `None`; otherwise the rows are kept and the header is the resolved one, with the column count kept and no `Question Number` label left |
| Viva.ShowQuestion | app.py:177-217 | with a non-empty list the shown position k satisfies 1 <= k <= N and the shown row is filtered[k-1], which the session stores; with no press an in-range cursor stays and an out-of-range one shows question N; each button's effect on the clamped cursor |
| Viva.RenderLoaded | app.py:113-223 | never "could not load" nor a missing `Section`; a non-empty pick with no `question_num` column gives the missing-column view for it, and with more than one gives the duplicate-column view; both store the cursor as it was (0 when unset); an empty pick iff the warning, with the same cursor; with exactly one `question_num` and a non-empty pick the session is the one ShowQuestion stores after the clamp and the press; a missing `Question`, then a missing `Answer`, gives that column's missing-column view; with both present the cycle is exactly ShowQuestion's |
| Viva.RenderLoadedShowsCursorRow | app.py:177-217 | a loaded cycle that shows a question is ShowQuestion applied to the filtered pick, the stored cursor (0 when unset) and the press |
| Viva.Render | app.py:101-228 | the session cursor stays non-negative; a load failure or an empty file iff "could not load"; a loaded file without a `Section` column iff the missing-column view for `Section`; both leave the session untouched; every other loaded file gives exactly the loaded cycle of its resolved header |
| Viva.RenderShowsCursorRow | app.py:108-217 | a cycle that shows a question had a loaded file and a non-empty filtered pick, and it is ShowQuestion applied to that pick, the stored cursor and the press |
| Viva.RenderLoadedLabelsShownRow | app.py:177-217 | a shown question's label has 1 <= k <= N <= total, with N the filtered pick's length, and the row shown is the pick's k-th |
| Viva.RenderLabelsShownRow | app.py:108-217 | the same label facts for a whole cycle, with total the number of loaded rows |
| Viva.RenderLoadedWithColumns | app.py:144-223 | with `question_num`, `Question` and `Answer` present, a loaded cycle never hits a missing column; it shows a question iff something is picked and `question_num` occurs once, and ends in the duplicate-column view iff something is picked and it occurs more than once |
| Viva.FullHeaderNeverMissesColumn | app.py:108-223 | a non-empty file whose resolved header has all four columns the tab reads never ends in a missing-column view; it shows a question iff something is picked and `question_num` occurs once, and fails at the sort iff something is picked and it occurs more than once |
| Viva.FourColumnFileNeverMissesColumn | app.py:26-32 | a non-empty 4-column file without `Question Number` never ends in a missing-column or duplicate-column view, and shows a question iff something is picked |
| Viva.RepeatedQuestionNumFails | app.py:108-153 | a non-empty file with `Section`, `Question Number` and `question_num` columns, given a non-empty pick, always ends in the duplicate-column view, with the cursor stored as it was (0 when unset) |
| Viva.Run | app.py:101-217 | over any sequence of interactions, the stored cursor stays non-negative |
| Viva.ShownQuestionAlwaysExists | app.py:177-217 | after any history from a fresh session, a shown question is a loaded row of a picked section and its label has 1 <= k <= N |
| Viva.RerunIsStable | app.py:186-214 | the rerun after a press shows the question the press moved to, and a rerun without a press changes nothing |
| Viva.RenderLoadedRerunIsStable | app.py:186-223 | the loaded part of a cycle, rerun with the cursor it stored and no press, gives the same cycle |
| Viva.ShowQuestionRerunIsStable | app.py:177-217 | showing again from the stored cursor with no press shows the same question and stores the same cursor |
| Viva.FreshSessionShowsFirst | app.py:113-115 | a fresh session opens on the first filtered question |
| Viva.FailedLoadKeepsSession | app.py:108-110 | a parser failure shows "could not load" and leaves the session as it was |
| Viva.ThreeColumnFileMissesSection | app.py:108-111 | a non-empty 3-column file without `Question Number` always ends in the missing-column view for `Section`, with the session untouched |

## Left out

- CSV parsing, the cp1252 and utf-8 encodings, and the exception-to-`None` path. `pd.read_csv` is a library call; its result is an input `Option<Frame>`.
- The glossary tab (app.py:230-294), the logo header (app.py:49-98), tabs and all HTML/markdown rendering. They are presentation only.
- Sections.Row: a section is a non-missing string. A blank or NA-valued Section cell is NaN in pandas, and the default pick at app.py:128 would include it. Picking a NaN section makes the categorical at app.py:148-152 raise. This is not modelled.
- Repeated labels other than `question_num`. The parser renames a repeated header label (`X.1`), so the only repeat a resolved header can hold is the `question_num` the rename creates. The model accepts any header and does not model a repeated `Section`, `Question` or `Answer` label.
- The exception display. A KeyError or ValueError ends the run, and Streamlit shows a traceback. The model keeps only which column was missing and the session as stored at that point. Widgets drawn before the failing read are presentation only.
- The float progress fraction (app.py:182). Only its integer parts, k and N, are modelled.
- The section counts in the status line (app.py:111, 158). They are display only; the question counts are modelled as `count` and `total`.
- The distribution of `random.randint`. Random is modelled only by its range, as a drawn value `roll` with 0 <= roll < N.
- Streamlit plumbing: `st.session_state`, `st.rerun`, the button and multiselect widgets. The rerun after a press is folded into the same cycle, and `Viva.RerunIsStable` shows that the following rerun changes nothing.
- Question numbers: `question_num` is modelled as an integer. A text-valued or missing (NaN) question number would sort differently in pandas.
- Sections.SortRows: rows with equal keys are not proved to keep their loaded order. Only sortedness and permutation are stated.
- Sections.FilterAndOrder: it requires a duplicate-free pick list because an ordered categorical with repeated categories raises. The multiselect never produces one.
- Viva.Render: it requires a non-negative stored cursor. The app only ever stores 0, clamped values and button results, and `Viva.Run` proves that invariant. Python's negative `iloc` indexing is therefore not modelled.
- Viva.Render: `df.empty` is modelled as "no rows". A frame with rows but no columns does not arise from a parser.
