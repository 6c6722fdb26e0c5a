# 7K SnapNotes: a Dafny model of its core

7K SnapNotes turns photographed text into notes and notes into flashcards.
This project models four parts of it and proves properties of them:

- **The flashcard generator** (`lib/textUtils.ts`), in `text_utils.dfy`.
  It reads the non-blank lines of a note one at a time:
  - A line holding a separator (`:`, `-` or `=>`, whichever occurs first) may give a card, whose front is the text before the separator and whose back is built from the text after it. When it gives one, and what exactly the back is, are the two details described below.
  - A line without a separator is paired with the line before it when that line looks like a heading and no earlier card has it as its front.
  - If neither rule gave a card, every line becomes a placeholder card with the front `...`.

  The generator is an imperative method (`GenerateFlashcardsFromText` and its loop body `ProcessLine`). It is proved equal to a fold, `Generate`. The fold works on a per-line summary (`LineView`), and the properties are proved about it. `strings.dfy` gives the JavaScript `trim`, `split` and `join` the generator relies on, with their own lemmas.
- **The flashcard pager** (`components/pages/FlashcardsPage.tsx`), in `flashcards_page.dfy`.
  - The pure index update `NextIndex` wraps around at both ends.
  - The class `Pager` holds the index, flip and direction state that `paginate` updates.
- **The onboarding tour** (`components/Onboarding.tsx`), in `onboarding.dfy`.
  The class `Tour` holds the step, direction and visibility state. Local storage is a `map` field that completing the tour writes to.
- **The scan page** (`components/pages/ScanPage.tsx`), in `scan_page.dfy`.
  - The title and record that `saveNote` builds.
  - The screen state that `handleImage` and `resetState` change.

Two details of the code are easy to misread:

- The back of a separator card is every piece after the first, each trimmed, joined with the bare separator. So `A: B: C` gives the back `B:C`, not `B: C`: the white space around inner separators is lost (`TextUtils.SeparatorCardShape`).
- A separator line gives a card only when the first piece after the separator is non-empty, not the whole back. So `A::B` gives nothing.

## Model

| member | source | states |
|---|---|---|
| TextUtils.GenerateFlashcardsFromText | lib/textUtils.ts:3-52 | The loop and the fallback return exactly `Generate(text, noteId)`: the main pass over the non-blank lines, or one placeholder per line when the main pass gave nothing |
| TextUtils.Generate | lib/textUtils.ts:3-52 | Definition: the main-pass cards of the text, or the placeholders of its lines when there are none |
| TextUtils.MainCards | lib/textUtils.ts:5-38 | Definition: the main pass run over all the non-blank lines of the text |
| TextUtils.MainPass | lib/textUtils.ts:7-38 | Definition: the cards after the first `n` iterations, each one a `Step` on the cards before it |
| TextUtils.Step | lib/textUtils.ts:8-37 | Definition: a separator line adds its separator card or nothing; another line after the first adds (previous trimmed line, trimmed line) when the previous line passes the heading test and no card so far has it as front; otherwise nothing |
| TextUtils.ProcessLine | lib/textUtils.ts:8-37 | One iteration of the main loop adds exactly what `Step` prescribes for line `i`: the separator card, or the heading pair unless its front was already used, or nothing |
| TextUtils.SomeFront | lib/textUtils.ts:29 | `cards.some(c => c.front === front)` is true iff some card so far has that front |
| TextUtils.HasFront | lib/textUtils.ts:29 | Definition: some card emitted so far has the given front |
| TextUtils.NonBlankLines | lib/textUtils.ts:5 | A string is among the lines read iff it is a piece of `split('\n')` whose trim is non-empty; there are no more lines than pieces |
| TextUtils.Lines | lib/textUtils.ts:5 | Definition: the non-blank pieces of the text split at line feeds |
| TextUtils.FindSeparatorIsLeftmost | lib/textUtils.ts:10 | The match is an occurrence of its token, no `:`, `-` or `=>` starts before it, and with no match none occurs in the line |
| TextUtils.FindSeparator | lib/textUtils.ts:10 | A match lies inside the line: its token fits between its position and the end (leftmost-ness is FindSeparatorIsLeftmost) |
| TextUtils.SeparatorAt | lib/textUtils.ts:10 | Definition: the alternatives `:`, `-`, `=>` tried in that order at one position |
| TextUtils.SeparatorCard | lib/textUtils.ts:12-21 | A separator card belongs to the note and has a non-empty front and back |
| TextUtils.TrimEach | lib/textUtils.ts:14 | Definition: every piece trimmed, in order |
| TextUtils.SeparatorCardShape | lib/textUtils.ts:10-21 | A card exists iff the trimmed text before the leftmost separator and the trimmed first piece after it are both non-empty; the back is all later pieces, trimmed, joined by the bare token |
| TextUtils.View | lib/textUtils.ts:12-21 | A line that yields a separator card is a line the pattern matched |
| TextUtils.IsHeading | lib/textUtils.ts:27 | Definition: a previous trimmed line is a heading iff it is shorter than 50 characters and does not end in `.`, `?` or `!` |
| TextUtils.EndsWithTerminal | lib/textUtils.ts:27 | Definition: the test `/[.?!]$/`, the last character is `.`, `?` or `!` |
| TextUtils.Placeholders | lib/textUtils.ts:41-49 | The fallback gives one card per line, in order, front `...`, back the untrimmed line |
| TextUtils.GenerateEmptyIffBlank | lib/textUtils.ts:5-49 | The result is empty iff every line of the text is blank |
| TextUtils.GenerateOwnedBy | lib/textUtils.ts:16-47 | Every card carries the note id it was generated for |
| TextUtils.MainPassOwnedBy | lib/textUtils.ts:16-34 | When the separator cards carry the note id, so does every card of the main pass |
| TextUtils.MainPassStep | lib/textUtils.ts:7-38 | Each iteration keeps the cards so far as a prefix and adds at most one |
| TextUtils.MainPassPrefix | lib/textUtils.ts:7-38 | An earlier stage of the loop is a prefix of a later one, which has at most one more card per line read |
| TextUtils.MainPassAtMostOnePerLine | lib/textUtils.ts:7-38 | The main pass has no more cards than the text has non-blank lines |
| TextUtils.MainPassProvenance | lib/textUtils.ts:12-36 | Every card of the main pass is the card of a separator line or pairs a heading with the separator-free line after it; the first line is never a body |
| TextUtils.MainCardsProvenance | lib/textUtils.ts:12-36 | The same, stated over the text's trimmed lines |
| TextUtils.NewCardWithKnownFront | lib/textUtils.ts:28-35 | A new card whose front was already emitted can only be the card of a separator line |
| TextUtils.RepeatedFrontComesFromSeparator | lib/textUtils.ts:29 | When two cards share a front, the later one is the card of a separator line |
| TextUtils.HeadingPairing | lib/textUtils.ts:24-36 | After a heading, a separator-free line adds the pair (heading, line) iff no card so far has the heading as its front |
| TextUtils.SeparatorLineStep | lib/textUtils.ts:12-22 | A separator line adds its own card or nothing, whatever the line before it is |
| TextUtils.Fallback | lib/textUtils.ts:40-49 | A non-empty main pass is the result; an empty one is replaced by one placeholder per line, in order |
| TextUtils.SeparatorCardTrimmed | lib/textUtils.ts:14-20 | The front and back of a separator card are already trimmed: the front is a trimmed piece, and the back joins trimmed pieces with a token that has no white space at its ends |
| TextUtils.ReadLineNonEmpty | lib/textUtils.ts:5 | A line the generator reads is not empty, and neither is its trim |
| TextUtils.MainCardsTrimmed | lib/textUtils.ts:12-36 | Every card of the main pass has a non-empty front and back, and trimming either one again changes nothing |
| TextUtils.GenerateCardsNonEmpty | lib/textUtils.ts:3-52 | Every card the generator returns, placeholders included, has a non-empty front and back |
| Strings.IsSpace | lib/textUtils.ts:8 | Definition: the characters `trim` removes, the ECMAScript WhiteSpace and LineTerminator characters |
| Strings.TrimStartSpec | lib/textUtils.ts:8 | Trimming the start drops exactly the leading white space |
| Strings.TrimEndSpec | lib/textUtils.ts:8 | Trimming the end drops exactly the trailing white space |
| Strings.TrimStart | lib/textUtils.ts:8 | Definition: drops leading white space one character at a time |
| Strings.TrimEnd | lib/textUtils.ts:8 | Definition: drops trailing white space one character at a time |
| Strings.Trim | lib/textUtils.ts:8 | Definition: `trim` is trimming the start and then the end (characterised by TrimSpec) |
| Strings.TrimSpec | lib/textUtils.ts:5 | `trim` gives the slice between blank text on both sides, with no white space at either end; it is empty iff the string is blank |
| Strings.NoOuterSpace | lib/textUtils.ts:8 | Definition: no white space at either end of the string, which is what `trim` leaves (see TrimFixed) |
| Strings.TrimFixed | lib/textUtils.ts:8 | `trim` leaves a string unchanged iff it has no white space at either end |
| Strings.TrimIdempotent | lib/textUtils.ts:8 | `trim` is idempotent: trimming twice is trimming once (used for the trimmed fronts and backs of the cards) |
| Strings.SplitJoin | lib/textUtils.ts:14-19 | Joining the pieces of a split with the same separator gives back the string |
| Strings.JoinNoOuterSpace | lib/textUtils.ts:19 | Pieces without white space at their ends, joined by a separator without white space at its ends, give a string without white space at its ends |
| Strings.Split | lib/textUtils.ts:14 | `split` with a non-empty string separator always gives at least one piece (the pieces between non-overlapping occurrences found left to right; see SplitJoin, SplitAtFirst, SplitHead) |
| Strings.Join | lib/textUtils.ts:19 | Definition: `join`, the pieces with the separator between neighbours |
| Strings.SplitAtFirst | lib/textUtils.ts:14 | With the first occurrence of the separator at `p`, the pieces are the text before `p` followed by the pieces of the text after the occurrence |
| Strings.SplitHead | lib/textUtils.ts:14 | The first piece is the longest prefix in which the separator does not start; if it stops short, the separator starts right after it |
| Strings.FirstLine | components/pages/ScanPage.tsx:85 | `split('\n')[0]` is a prefix without a line feed, followed by a line feed or the end |
| FlashcardsPage.NextIndex | components/pages/FlashcardsPage.tsx:22-28 | Definition: 0 with no deck; the last index below 0; 0 at or past the length; `prev + dir` otherwise (properties in the rows below) |
| FlashcardsPage.NextIndexCases | components/pages/FlashcardsPage.tsx:22-28 | No deck gives 0, a step below 0 gives the last index, a step to the length or beyond gives 0, any other step gives `prev + dir` |
| FlashcardsPage.NextIndexInDeck | components/pages/FlashcardsPage.tsx:22-28 | On a deck with cards, a one-card step from a card of the deck lands on a card of the deck |
| FlashcardsPage.NextIndexIsModular | components/pages/FlashcardsPage.tsx:22-28 | A one-card step is `(prev + dir) mod length` |
| FlashcardsPage.NextIndexInverse | components/pages/FlashcardsPage.tsx:22-28 | Back undoes Next and Next undoes Back |
| FlashcardsPage.ForwardIsModular | components/pages/FlashcardsPage.tsx:22-28 | `k` presses of Next move `k` cards on modulo the length |
| FlashcardsPage.FullLap | components/pages/FlashcardsPage.tsx:22-28 | As many presses of Next as the deck has cards come back to the starting card |
| FlashcardsPage.ActiveCard | components/pages/FlashcardsPage.tsx:17 | There is a card on show iff the deck has loaded and the index is inside it, and that card is the deck's card at the index |
| FlashcardsPage.PaginateShowsACard | components/pages/FlashcardsPage.tsx:17-28 | After a one-card step on a deck with cards there is always a card on show |
| FlashcardsPage.Pager.constructor | components/pages/FlashcardsPage.tsx:13-15 | The pager starts on the first card, front up, with direction 0 |
| FlashcardsPage.Pager.Paginate | components/pages/FlashcardsPage.tsx:19-29 | `paginate` turns the card front up, records the direction and sets the index to `NextIndex`, keeping it inside a non-empty deck |
| FlashcardsPage.Pager.Flip | components/pages/FlashcardsPage.tsx:108 | Flip turns the card over and changes nothing else |
| Onboarding.StepsStayInTour | components/Onboarding.tsx:52-66 | Next and Back keep the step in `[0, 4]`; Next moves on iff not on the last step, Back moves back iff not on the first |
| Onboarding.NextPrevInverse | components/Onboarding.tsx:52-66 | Back undoes Next before the last step, and Next undoes Back after the first |
| Onboarding.FooterButtons | components/Onboarding.tsx:150-193 | The left button is Skip iff on the first step; the right one reads "Get Started" iff on the last |
| Onboarding.CompletionIsRemembered | components/Onboarding.tsx:40-50 | After the flag is written, a later mount does not show the tour; other stored entries are untouched |
| Onboarding.NextStep | components/Onboarding.tsx:52-59 | Definition: one step on before the last step, the same step on it |
| Onboarding.PrevStep | components/Onboarding.tsx:61-66 | Definition: one step back after the first step, the same step on it |
| Onboarding.IsLastStep | components/Onboarding.tsx:106 | Definition: the step is the last of the five |
| Onboarding.ShowsOnMount | components/Onboarding.tsx:41-42 | Definition: `!getItem(key)`, the key is missing or holds the empty string |
| Onboarding.LeftButtonAt | components/Onboarding.tsx:150-176 | Definition: Skip on step 0, Back otherwise |
| Onboarding.NextLabel | components/Onboarding.tsx:193 | Definition: "Get Started" on the last step, "Next" otherwise |
| Onboarding.Tour.constructor | components/Onboarding.tsx:36-38 | The tour starts hidden on the first step with direction 0 |
| Onboarding.Tour.Mount | components/Onboarding.tsx:40-45 | The overlay becomes visible iff the stored flag is missing or empty |
| Onboarding.Tour.CompleteOnboarding | components/Onboarding.tsx:47-50 | Completing stores `"true"` under the key and hides the overlay |
| Onboarding.Tour.HandleNext | components/Onboarding.tsx:52-59 | Before the last step: one step on, direction 1; on the last step: the tour is completed and the step stays |
| Onboarding.Tour.HandlePrev | components/Onboarding.tsx:61-66 | After the first step: one step back, direction -1; on the first step nothing changes |
| Onboarding.Tour.ClickLeftButton | components/Onboarding.tsx:150-176 | Skip on the first step completes the tour; Back elsewhere goes one step back |
| ScanPage.Prefix | components/pages/ScanPage.tsx:87 | `substring(0, n)` is a prefix of at most `n` characters, the whole string when that is shorter |
| ScanPage.TitleSource | components/pages/ScanPage.tsx:85 | Definition: the first piece of `split('\n')`, or "Untitled Note" when it is empty |
| ScanPage.Title | components/pages/ScanPage.tsx:85-87 | Definition: the title source cut to 50 characters (characterised by TitleSpec) |
| ScanPage.TitleSpec | components/pages/ScanPage.tsx:85-87 | The title is non-empty, at most 50 characters and without a line feed; it is "Untitled Note" when the first line is empty, and otherwise the start of the first line (all of it when shorter than 50) |
| ScanPage.NoteToSave | components/pages/ScanPage.tsx:83-90 | No note is saved iff the result is null or empty |
| ScanPage.SavedNoteSpec | components/pages/ScanPage.tsx:83-90 | A saved note's content is the result unchanged and its title is `Title(result)`: non-empty, at most 50 characters, without a line feed, and a prefix of the result or "Untitled Note" |
| ScanPage.Scanner.CanSave | components/pages/ScanPage.tsx:249 | Definition: the button's `disabled` test negated, enabled when recognition is not running and the result is non-empty (see SaveButtonGuard) |
| ScanPage.SaveButtonGuard | components/pages/ScanPage.tsx:248-249 | The Save Note button is enabled iff recognition is over and `saveNote` has a note to add; it is disabled while recognition runs |
| ScanPage.Scanner.constructor | components/pages/ScanPage.tsx:29-33 | The screen starts idle with no result, no image, no progress |
| ScanPage.Scanner.OpenCamera | components/pages/ScanPage.tsx:162 | The camera button switches to camera mode and nothing else |
| ScanPage.Scanner.BeginImage | components/pages/ScanPage.tsx:43-49 | Starting an image sets processing, clears the result, zeroes the progress, enters result mode, and previews a screenshot |
| ScanPage.Scanner.OnProgress | components/pages/ScanPage.tsx:53 | The progress callback sets the progress and nothing else |
| ScanPage.Scanner.FinishImage | components/pages/ScanPage.tsx:51-60 | When recognition settles, the result is its text or "Failed to process image." and processing is over |
| ScanPage.Scanner.HandleImage | components/pages/ScanPage.tsx:42-61 | A whole `handleImage`, with the progress reports the service makes through `setProgress`, ends in result mode, not processing, with the last reported progress (0 if none) and the recognised text or the failure message |
| ScanPage.Scanner.EditResult | components/pages/ScanPage.tsx:205 | An edit in the text area replaces the result, also while recognition runs, and changes nothing else |
| ScanPage.Scanner.ResetState | components/pages/ScanPage.tsx:98-104 | Reset returns to idle with no result, no image, no progress, not processing |
| ScanPage.Scanner.SaveNote | components/pages/ScanPage.tsx:82-96 | Saving adds exactly `NoteToSave(ocrResult)` to the notes when there is one, and otherwise nothing |
| ScanPage.Scanner.ClickSave | components/pages/ScanPage.tsx:247-252 | A click on a disabled Save Note button adds nothing; on an enabled one it adds the note made from the result |

## Left out

- Text recognition (`services/ocrService.ts`) is not part of this model: the scan page receives its outcome as the parameter of `FinishImage`. The language and accuracy settings passed to it are left out with it.
- The asynchronous gap inside `handleImage` is modelled as two methods, `BeginImage` and `FinishImage`, with `OnProgress` for each progress report in between. Any other event may run between them. A recognition that settles after a reset, a newer image or an edit of the text still writes its result, as in the code. Nothing pairs a finish with its own start. `HandleImage` is the run with no other event in between.
- React state updates are modelled as immediate assignments. Batched updates and handlers that read a stale `step` or `isFlipped` within one render are not modelled.
- The notes table (`services/db.ts`) is a sequence that `SaveNote` appends to. The store-assigned `id`, the `createdAt` clock reading, a failing `add`, and the navigation to the new note are left out.
- AI summarisation (`lib/gemini.ts`), the clipboard copy and its two-second timer, the file reader and webcam screenshot that feed `handleImage`, routing, and all rendering are left out. They are I/O or presentation.
- The swipe threshold in FlashcardsPage.tsx uses floating-point drag velocity. It is left out, and only the resulting `paginate(1)` and `paginate(-1)` calls are modelled. The card and tour animations are left out too.
- The deck comes from a live database query. `Pager.Paginate` takes its length (or None while loading) as a parameter. Parsing the route parameter into a note id is left out.
- The regular expressions `(:|-|=>)` and `[.?!]$` are modelled as an explicit leftmost search over the three tokens and a last-character test.
- String lengths count characters, not UTF-16 code units. So the limit of 50 in the heading test and in the title cut is measured per character, and a cut in the middle of a surrogate pair is not modelled.
- The mount effect of the tour runs once in React. `Tour.Mount` may be called at any time.
- TextUtils.NonBlankLines: states which strings are kept, not their order or repetitions. The order is fixed by its definition, which the generator's specification uses.
- The main-pass lemmas (`MainPassStep` through `SeparatorLineStep`) are stated for any sequence of line summaries. `MainCardsProvenance` restates provenance for the summaries of a text; the others are not restated that way.
