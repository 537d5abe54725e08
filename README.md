# Flashcard quiz: roster extraction and quiz rounds

`main.py` is a flashcard quiz for learning who is who. It reads a roster
document and finds every table whose header says "Student Information". Each
data row of such a table gives a `Student` with a name, an email, an id and a
photo. The window then shows one student's photo and several name buttons.
A click is logged as the correct email against the guessed one, and a new
round is dealt.

This project models the sequential logic of that script in Dafny:

- `strings.dfy` (`Strings`): the two Python string operations the script
  calls, `str.strip()` (with Python's whitespace set) and `str.split(sep)`,
  written over `seq<char>`. `FindFirst` is the left-to-right search inside
  `split`. `Join` is only the inverse used to state that splitting loses
  nothing (`JoinSplit`).
- `students.dfy` (`Students`): the `Student` record, the display name
  `first_last`, and the field picking of `from_row` on a row that has
  already been parsed.
- `roster.dfy` (`Roster`): the header test and the table and row loops of the
  `__main__` block. `LoadRoster` is the loop. `Roster` is its specification
  function.
- `rounds.dfy` (`Rounds`): the pure parts of a round. These are Python's
  `str` order, a stable sort by key (`sorted(..., key=...)`), the display-name
  key, and `random.shuffle` given as a permutation of indices.
- `quiz.dfy` (`Quiz`): the quiz state machine. The pure step functions are
  `Setup` (made of `Shuffle` and `Deal`) and `Click`. They come with the
  invariant they keep. The `MainWindow` class holds the fields `students`,
  `choices`, `correct` and `trainLog`. Its methods `SetupProblem` and
  `OnButtonClick` update those fields in place and are proved against the
  step functions.

Randomness comes in as parameters. A shuffle is `perm`, a permutation of the
pool's indices, and position `i` receives the student at `perm[i]`.
`random.choice` is `pick`, an index into the round. The training log is an
append-only sequence of `(actual, guess)` email pairs.

Exceptions the source can raise become explicit outcomes:

- `first_last` on a name without exactly one comma gives `None`. In the
  source this is a `ValueError` from the tuple unpacking.
- `from_row` gives `Err(TooFewInfoCells)` when there are fewer than five info
  cells and `Err(MissingIdLabel)` when there is no `"ID: "`. These are the
  two `IndexError`s.
- An empty `tbody` is `Err(EmptyTable)`. This is `rows[0]`.
- `setup_problem` gives `BadDisplayName` when the sort key raises on one of the
  first `k` shuffled students. It gives `EmptyRound` when `random.choice` gets
  an empty round.
- `on_button_click` gives `NoRound` when the `assert` on `correct` fails. It
  gives `IndexError` for a button past the end of the round.

In each case the modelled state is the state the source has when it raises:

- After `BadDisplayName`, the pool is already shuffled, but `choices` and
  `correct` are unchanged.
- After `EmptyRound`, `choices` is already `[]`.
- A rejected click has logged nothing.

`(last, first) = self.name.split(",")` (main.py:51) raises unless the name
holds exactly one comma, so `FirstLast` is defined exactly then
(`FirstLastDefinedIff`).

## Model

| member | source | states |
|---|---|---|
| Strings.TrimStart | main.py:52 | the result is the longest suffix that does not start with Python whitespace; everything removed is whitespace |
| Strings.TrimEnd | main.py:52 | the result is the longest prefix that does not end with Python whitespace; everything removed is whitespace |
| Strings.Strip | main.py:138 | `str.strip()`: the result is a slice of the input with only whitespace before and after it, and it neither starts nor ends with whitespace |
| Strings.StripIdempotent | main.py:52 | stripping an already stripped string changes nothing |
| Strings.Split | main.py:51 | `str.split(sep)`: at least one piece; its meaning is carried by `Strings.JoinSplit`, `Strings.SplitPiecesAreFree`, `Strings.SplitSecondPiece` and `Strings.SplitCharPieces` |
| Strings.FindFirst | main.py:45 | the index found holds an occurrence of the separator and no earlier index does; `None` means the separator occurs nowhere |
| Strings.JoinSplit | main.py:45 | joining the pieces of `s.split(sep)` with `sep` gives back `s` |
| Strings.SplitPiecesAreFree | main.py:45 | no piece of a split contains the separator |
| Strings.SplitSecondPiece | main.py:45 | when the separator occurs, the second piece is the text after its first occurrence, up to the next occurrence or the end |
| Strings.SplitCharPieces | main.py:51 | splitting on one character gives exactly one more piece than there are occurrences of it |
| Students.FirstLast | main.py:50-52 | `first_last`; its contract is carried by `Students.FirstLastDefinedIff` and `Students.FirstLastAt` |
| Students.FromRow | main.py:37-48 | `from_row` on a parsed row; its contract is carried by `Students.FromRowOkIff` and `Students.FromRowFields` |
| Students.FirstLastDefinedIff | main.py:50-51 | the display name exists if and only if the name has exactly one comma (otherwise the unpacking raises) |
| Students.FirstLastAt | main.py:50-52 | with its only comma at index `i`, the display name is the stripped text after the comma, one space, then the stripped text before it |
| Students.FromRowOkIff | main.py:40-45 | a row gives a student if and only if it has at least five info cells and the fifth contains `"ID: "`; otherwise the error says which index fails |
| Students.FromRowFields | main.py:43-46 | the student's name and email are info cells 0 and 1 unchanged and its photo is the row's image `src`; the id is the text just after the first `"ID: "` of cell 4, up to the next `"ID: "`, not trimmed |
| Roster.Qualifies | main.py:135-139 | the header test; what it decides is carried by `Roster.NonQualifyingTable` and `Roster.QualifyingTable` |
| Roster.RowsStudents | main.py:140-142 | the row loop as a function; its contract is carried by `Roster.RowsStudentsSpec` and `Roster.RowsErrorPropagates` |
| Roster.TableStudents | main.py:134-142 | one table's contribution; its contract is carried by `Roster.NonQualifyingTable` and `Roster.QualifyingTable` |
| Roster.Roster | main.py:133-142 | the whole load as a function; its contract is carried by `Roster.RosterAppend`, `Roster.RosterOkIff`, `Roster.RosterErrorPropagates`, and `Roster.LoadRoster` is proved equal to it |
| Roster.RowsStudentsSpec | main.py:140-142 | the rows are all read if and only if each one is; then there is one student per row, the i-th read from the i-th row |
| Roster.RowsErrorPropagates | main.py:140-141 | once a row fails, reading the rest of the table fails with that error |
| Roster.NonQualifyingTable | main.py:135-139 | a table whose header is not two cells with the second stripped to "Student Information" contributes no students |
| Roster.QualifyingTable | main.py:135-142 | a qualifying table is read if and only if every row after its header is, and then it yields one student per such row in row order |
| Roster.RosterAppend | main.py:133-142 | loading a document made of two parts is loading the first part and then the second: the first error wins, otherwise the students of the two parts are concatenated in table order |
| Roster.RosterOkIff | main.py:133-142 | the document loads if and only if every one of its tables does |
| Roster.RosterErrorPropagates | main.py:133-142 | once a table fails, loading the rest of the document fails with that error |
| Roster.LoadRoster | main.py:130-142 | the nested loop over tables and rows returns exactly `Roster(doc)`, including the first error |
| Rounds.Less | main.py:91 | Python's `<` on `str` (code-point order, a proper prefix first); its contract is carried by `Rounds.LessIrreflexive`, `Rounds.LessTransitive` and `Rounds.LessTotal` |
| Rounds.LessIrreflexive | main.py:91 | no string sorts below itself |
| Rounds.LessTransitive | main.py:91 | the string order is transitive |
| Rounds.LessTotal | main.py:91 | two different strings are ordered one way or the other, never both ways |
| Rounds.Insert | main.py:91 | inserting adds exactly the one element to the multiset |
| Rounds.SortBy | main.py:91 | `sorted(s, key=key)`: same length, same multiset, non-decreasing by key |
| Rounds.SortByStable | main.py:91 | for every key value, the elements with that key keep their relative order |
| Rounds.StableSortUnique | main.py:91 | any arrangement that is sorted by key and keeps the order among equal keys is `SortBy`, so `SortBy` is exactly Python's stable sort |
| Rounds.SortByName | main.py:91 | `sorted(..., key=lambda x: x.first_last())`; its contract is that of `Rounds.SortBy`, with `Rounds.SortByStable` and `Rounds.StableSortUnique` |
| Rounds.AllWellNamedSub | main.py:91 | students drawn from a collection whose display names all exist also have display names |
| Rounds.Permute | main.py:90 | the shuffled pool has the pool's length |
| Rounds.PermuteMultiset | main.py:90 | shuffling keeps the pool's multiset of students |
| Rounds.DistinctEmailsSub | main.py:91 | students drawn from a collection whose emails are distinct have distinct emails |
| Rounds.DistinctEmailsReordered | main.py:90-91 | reordering a pool whose emails are distinct keeps them distinct |
| Rounds.RoundEmailsDistinct | main.py:90-92 | in a round dealt from a pool whose emails are distinct, the correct answer's email is on exactly one button |
| Quiz.Initial | main.py:63-65 | the state before the first round (the given pool, no round, no correct answer) satisfies the invariant for any number of buttons |
| Quiz.Shuffle | main.py:90 | the shuffle step of `setup_problem`; its contract is carried by `Quiz.ShuffleKeepsInvariant` and `Quiz.SetupShufflesPool` |
| Quiz.Deal | main.py:91-92 | the sort-and-pick step of `setup_problem`; its contract is carried by `Quiz.DealKeepsInvariant`, `Quiz.SetupOutcomes` and `Quiz.SetupRound` |
| Quiz.Setup | main.py:89-92 | `setup_problem` as a step function; its contract is carried by `Quiz.SetupShufflesPool`, `Quiz.SetupOutcomes`, `Quiz.SetupRound` and `Quiz.SetupKeepsInvariant` |
| Quiz.Click | main.py:100-120 | `on_button_click` as a step function; its contract is carried by `Quiz.ClickRejected`, `Quiz.ClickLogs`, `Quiz.ClickKeepsInvariant` and `Quiz.ClickCorrectExactlyOnce` |
| Quiz.LabelCount | main.py:97-98 | `num_labels` on a state: the number of logged attempts; how it changes is carried by `Quiz.ClickLogs` |
| Quiz.SetupShufflesPool | main.py:90 | `setup_problem` replaces the pool by its permutation (same multiset) and leaves the log alone |
| Quiz.SetupOutcomes | main.py:89-92 | `setup_problem` raises in the sort exactly when one of the first `k` shuffled students has no display name, leaving `choices` and `correct` as they were; it fails in `random.choice` exactly when the round is empty, after `choices` became `[]` |
| Quiz.SetupRound | main.py:89-92 | a dealt round has `min(k, |pool|)` students, the multiset of the first `k` shuffled ones, sorted non-decreasingly and stably by display name, and the correct answer is the picked one among them |
| Quiz.ShuffleKeepsInvariant | main.py:90 | shuffling the pool keeps the invariant |
| Quiz.DealKeepsInvariant | main.py:91-92 | dealing a round from the shuffled pool keeps the invariant, whatever the outcome |
| Quiz.SetupKeepsInvariant | main.py:89-92 | `setup_problem` keeps the invariant (round empty or of size `min(k, |pool|)`, drawn from the pool, sorted, all well named, correct answer in the round), whatever its outcome |
| Quiz.ClickRejected | main.py:100-103 | a click with no round, or on a button past the round, raises before anything is logged and changes nothing |
| Quiz.ClickLogs | main.py:100-120 | a scored click appends exactly the row (correct email, guessed email), keeps every earlier row, adds one to the label count, says "Correct" if and only if the two emails agree, and then runs `setup_problem` on the logged state |
| Quiz.ClickKeepsInvariant | main.py:100-120 | `on_button_click` keeps the invariant, whatever its outcome |
| Quiz.CorrectIsWellNamed | main.py:109-116 | between events the correct answer has a display name, so the message after a scored click does not raise |
| Quiz.ClickCorrectExactlyOnce | main.py:102-109 | with distinct emails in the round, a click is scored "Correct" if and only if its button holds the correct student |
| Quiz.RoundDistinctFromPool | main.py:90-92 | between events, a pool whose emails are distinct gives a round whose emails are distinct |
| Quiz.SetupKeepsDistinctPool | main.py:90 | `setup_problem` keeps the pool's emails distinct, since it only reorders the pool |
| Quiz.MainWindow.NumLabels | main.py:97-98 | `num_labels` on the window: `LabelCount` of its state; how it changes is carried by `Quiz.MainWindow.OnButtonClick` |
| Quiz.MainWindow.constructor | main.py:61-87 | the window starts with the given pool and log, `k` buttons and no round, then runs `setup_problem`; the invariant holds afterwards |
| Quiz.MainWindow.SetupProblem | main.py:89-92 | shuffles `students` in place and deals the round; the new fields are exactly `Setup` of the old ones, with the same multiset of students and the log unchanged; a dealt round holds its correct answer; the invariant is kept |
| Quiz.MainWindow.DealRound | main.py:91-92 | sorts the first `k` students of the pool into `choices` and sets `correct`; the new fields are exactly `Deal` of the old ones, the pool and the log unchanged; the invariant is kept |
| Quiz.MainWindow.OnButtonClick | main.py:97-120 | the new fields and the verdict are exactly `Click` of the old fields; `NumLabels` (the log length, `num_labels`) grows by one on a scored click and stays the same on a rejected one; the invariant is kept |

## Left out

- The PyQt window is not modelled: widgets, layouts, button labels, the photo label, message boxes and the event loop (`run`). Only the state these read and write is modelled.
- `get_image` and its `QPixmap` cache are not modelled, because they call a foreign library.
- BeautifulSoup parsing is replaced by its result. A document is the sequence of its `tbody` tables in document order, as `find_all("tbody")` returns them, nested ones included. A row is the list of all its `td` texts, the `td` texts of the nested table in its second cell, and the `src` of the first image in its first cell.
- The parser's structural failures are not modelled, because the row abstraction assumes those parts exist. These failures are a row with no second cell, a second cell without a `tbody`, and a first cell without an `img`.
- `os.path.join` and the `assert os.path.exists` on the photo are not modelled, because they touch the filesystem. `imageSrc` is the raw `src`. Opening the roster file is not modelled either.
- Students.FromRow: does not model the photo path join or the missing-file assertion (filesystem).
- The sqlite connection, the SQL text, `current_timestamp` and durability are not modelled. The log is an in-memory sequence, and the rows that exist at start-up are passed to the constructor.
- The internals of `random.shuffle` and `random.choice` are not modelled. They are given as `perm` and `pick`, so nothing is said about uniformity.
- `print` diagnostics are not modelled.
- Aliasing is not modelled. In the source, `self.students` is the caller's list, so the shuffle is visible to the caller too. The model keeps its own copy in a field.
- Quiz.MainWindow.constructor: does not report the outcome of the first `setup_problem`, because a Dafny constructor has no out-parameter. In the source that exception escapes `__init__`. Here the failure shows as `correct` staying `None`, and the state is still `Setup` of the initial state.
- The display-name text shown on the buttons and in the message boxes is not modelled. The only modelled fact about it is that computing it does not raise (`Quiz.CorrectIsWellNamed`, and all choices are well named by the invariant).
