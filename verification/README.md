# A verified model of GNU Readline's core

GNU Readline turns a stream of keys into edits of a line: it looks key sequences up in nested
keymaps, keeps a history that can be browsed, edited, split into words and saved, and keeps the
screen in step with the line by redrawing as little as it can.  This project models the parts of
the library whose correctness is least obvious, in the form the C code has (loops over indices,
buffers and tables updated in place, one object per piece of state), and proves what they are for.

The main results, each for all inputs or all runs:

* **Dispatch.** The recursive dispatcher and the one that simulates the recursion with a chain of
  contexts, so that it can be fed one key at a time, both do *maximal munch*: they run the binding
  of the longest bound prefix of the typed keys, give up exactly when no prefix is bound or the
  input ends inside a submap, and leave every keymap as it was although entries are patched on the
  way.  The unread keys are exactly those after that prefix, in order, less the first of them when
  more are put back than the ring of 511 holds; after giving up they are those never looked at.
  Maximal munch determines all of that, so the two dispatchers agree for every key stream, even
  though they compute "is something hidden further up" from different maps.
* **Binding.** Binding or unbinding a sequence is an update of a finite map from key strings to
  bindings: no other string changes its meaning, whatever submaps are made or folded away.
* **Display.** The incremental redraw of a line shows what a full redraw would and the believed
  cursor column is the real one, for every pair of lines, exactly when the terminal description
  keeps the promises that matter on a screen of that width.
* **History.** A line written word by word, with quotes, escapes, groups, operators and
  redirections, is split into exactly those words; splitting loses nothing but blanks and joining
  the words is a normal form; substitution is leftmost non-overlapping replacement; a stamped history file reads
  back as it was written exactly when no piece of a line is empty, ends in a carriage return or
  looks like a timestamp; browsing acts on `n + 1` independent buffers all through a run exactly
  when no move leaves a line with a change that its undo list does not show.
* **Editing and input.** A run of kills is undone by one yank; macros are one stream of keys; the
  input ring is a bounded double-ended queue; prompt wraps, UTF-8 scans, key notation, init-file
  conditionals and shell quoting do what their independent definitions say.

Where a property does not hold of the code for all inputs, the exact condition is proved instead:
`DisplaySpec.RedrawIsRightIffHonest`, `HistoryFileSpec.FileRoundTrip`, `KeyNotation.RoundTrip`,
`Binding.Bindings.FunctionOfKeyseq`, `BrowseSpec.AgreesIffLosesNothing`, `DispatchSpec.NoKeyLost`,
`MacroStack.KeyInput.ReadAndPutBack`, `Substitution.PostprocSubstRhs`, `TokenGrammar.GroupIsWordIff`,
`Tokenizer.WordByNumber` and `Utf8.MblenIsLength`.

Where the code and its own comments disagree, the model follows the code: word number 36 of a line
is taken for `$`, the last word, because both are the same number; macros nest one level deeper
than `MAX_MACRO_LEVEL`; bytes from 128 up are printed as they are in key notation, because
characters are signed there; and tokens are not split exactly where a shell would, because the first
character after `$(` is skipped, so that `$((1))` falls apart.

## Files

| file | subject |
|---|---|
| `Bytes`, `Characters`, `Options`, `Keymaps` | shared definitions; keymaps as tables in a store, and what a key string means in them |
| `InputRing` | the ring of pushed-back keys |
| `DispatchSpec`, `ChainSpec`, `Dispatch` | key-sequence dispatch, recursive and by callback |
| `KeyNotation`, `BindingSpec`, `Binding` | written key sequences; binding and looking up |
| `Screen`, `DisplaySpec`, `Display` | a terminal line and the display differ |
| `Prompt` | expanding a prompt |
| `TokenSpec`, `TokenGrammar`, `Tokenizer`, `Substitution`, `ShellQuote` | history expansion: words, `:s`, `:q`, `:x` |
| `HistoryFileSpec`, `HistoryFile`, `BrowseSpec`, `Browse` | the history file; browsing with unsaved edits |
| `KillRing`, `MacroStack`, `Utf8`, `Conditionals` | kills, macros, character boundaries, init files |

A file whose name ends in `Spec`, and `TokenGrammar`, holds definitions and lemmas only; the file beside it holds the
code, proved against them.

## Model

| member | source | states |
|---|---|---|
| Dispatch.Session.RecursiveCommand | readline/readline.c:864-1092 | One command read with the recursive dispatcher is maximal munch of the pending keys: the function or macro bound to the longest bound prefix is run, a function with the last of those keys; and no keymap changes |
| Dispatch.Session.CallbackCommand | readline/callback.c:239-249 | The same for a command fed key by key through the context chain |
| DispatchSpec.MunchIsDeterministic | readline/readline.c:804-1163 | Two dispatchers that do maximal munch report the same, run the same binding with the same key, show the same key sequence and leave the same keys unread, for every key stream, also when the sequence is abandoned or the ring overflows |
| DispatchSpec.FateIsMaximalMunch | readline/readline.c:864-1163 | The outcome of descending through submaps and backing up is the longest bound prefix, a miss exactly when nothing is bound, and failure exactly when every prefix is still inside a submap |
| DispatchSpec.NoKeyLost | readline/readline.c:937-940 | No key after the sequence that was run is lost if and only if at most 511 keys were read past it |
| DispatchSpec.DepthIsShortest | readline/readline.c:973-1036 | As many keys are read as the shortest prefix has that does not lead to a submap, or all of them |
| DispatchSpec.TopLevelMunch | readline/readline.c:1095-1163 | A dispatch that meets the level-by-level specification from the top is maximal munch |
| DispatchSpec.LiftEffects | readline/readline.c:1095-1163 | Acting on the report from one level down gives the report, the log and the recorded keys specified one level up |
| DispatchSpec.LiftQueue | readline/readline.c:1095-1163 | And leaves exactly the queue specified one level up, whatever the report and however full the ring |
| ChainSpec.UpOne | readline/readline.c:806-850 | A context acting on the report from below leaves what the recursion would have left, although its flag counts other maps |
| ChainSpec.Surface | readline/readline.c:806-850 | A result reached deep in the chain is the result of the whole sequence |
| ChainSpec.ChainGrows | readline/readline.c:1016-1036 | A further submap adds a context and the chain stands for the longer path |
| ChainSpec.ChainShrinks | readline/readline.c:832-849 | Leaving the innermost context leaves a chain for the shorter path, with the result handed on |
| Dispatch.Session.DispatchSubseq | readline/readline.c:864-1092 | Per entry type: runs the binding, backs up, aborts, or goes one level down; the whole meets the level specification and the keymaps are restored |
| Dispatch.Session.SubseqResult | readline/readline.c:1095-1163 | Runs a hidden function under its key through a temporary patch that is undone, or backs up, or passes the report on |
| Dispatch.Session.DispatchCallback | readline/readline.c:806-850 | One call on the innermost context: waits for a further key, finishes, or hands the report outwards |
| Dispatch.Session.ReadMultiKey | readline/callback.c:239-249 | One key and all the backing up it causes: either the next key is awaited on a longer path or the sequence is finished |
| Dispatch.Session.ReadKey | readline/input.c:752-800 | Pushed-back keys come before those of the terminal |
| InputRing.KeyRing.Space | readline/input.c:196-202 | The free count is exact across wrap-around |
| InputRing.KeyRing.Get | readline/input.c:208-222 | Removes the front key, and fails exactly on an empty ring |
| InputRing.KeyRing.Unget | readline/input.c:228-239 | Puts a key at the front, and fails exactly on a full ring |
| InputRing.KeyRing.Stuff | readline/input.c:468-488 | Appends a key (end of file as a newline with end of file pending), and fails exactly on a full ring |
| InputRing.KeyRing.InsertTypein | readline/input.c:443-463 | Takes exactly the longest run of self-inserting keys; putting the next key back never fails; the text and its NUL fit if and only if the run does not take a full ring |
| InputRing.SelfInsertRunIs | readline/input.c:443-463 | A self-inserting prefix that cannot be extended is the longest one |
| Binding.Bindings.BindKeys | readline/bind.c:403-517 | The sequence gets its binding and every other string keeps its meaning, prefixes bound to the lowercase version aside |
| Binding.Bindings.GenericBind | readline/bind.c:379-517 | The same for a written sequence; an empty one is refused and changes nothing |
| Binding.Bindings.StepInto | readline/bind.c:440-469 | Makes a submap that hides what was bound, or enters the one that is there |
| Binding.Bindings.FoldEmpty | readline/bind.c:496-513 | Folding an empty submap away after unbinding preserves all meanings |
| Binding.Bindings.FunctionOfKeyseq | readline/bind.c:812-869 | Finds what a sequence, meta keys spelled out, is bound to, if and only if no prefix that ends with the ESC of a meta key is bound to a function or macro; then it finds that one |
| Binding.CutShortIs | readline/bind.c:827-844 | Where a look-up is cut short, by the position of the meta key |
| Binding.CutMeansUnbound | readline/bind.c:812-869 | A look-up that is cut short is one of a sequence that is not bound |
| Binding.Bindings.MakeBareKeymap | readline/keymaps.c:57-78 | A new keymap with nothing bound, at a new address |
| Binding.Bindings.EmptyKeymap | readline/keymaps.c:83-93 | True exactly when no key is bound in the map |
| BindingSpec.RoomMade | readline/bind.c:440-469 | Turning an entry into a submap that hides it changes no meaning |
| BindingSpec.LeafSet | readline/bind.c:470-490 | Setting the last key's entry changes the meaning of that string only |
| BindingSpec.HiddenSet | readline/bind.c:472-490 | Setting the hidden entry of a submap changes the meaning of the string that leads there only |
| BindingSpec.Collapse | readline/bind.c:496-513 | Replacing an empty submap by what it hides changes no meaning |
| Keymaps.MeaningOfEntry | readline/bind.c:812-869 | The meaning of a string is its raw entry, or what the submap there hides |
| KeyNotation.TranslateKeyseq | readline/bind.c:523-650 | Parses written key sequences with prefixes and escapes; at most two keys per character |
| KeyNotation.WrittenKeys | readline/bind.c:523-650 | A written sequence of keys, with `\C-` and `\M-` in any order and characters written plainly, by an escape or by number, is what a terminal sends for them |
| KeyNotation.PrefixedCharacter | readline/bind.c:549-645 | `\M-c` is ESC and c, or c with its eighth bit set; `\C-c` is the low five bits, `\C-?` DEL; both prefixes do both, in either order |
| KeyNotation.EscapesAlone | readline/bind.c:564-624 | Each escape letter is its own byte; a prefix with nothing after it applies to NUL; a backslash at the end is itself |
| KeyNotation.ReadEscape | readline/bind.c:564-618 | The escape letters and the octal and hexadecimal digits with their limits |
| KeyNotation.NumericText | readline/bind.c:596-612 | Bytes written as three octal or two hexadecimal digits are translated to their own keys |
| KeyNotation.EveryByteIsNumeric | readline/bind.c:596-612 | Every byte can be written in both ways |
| KeyNotation.UntranslateMacroValue | readline/bind.c:735-788 | Prints keys with at most seven bytes each |
| KeyNotation.PrintableAsIs | readline/bind.c:735-788 | Printable text without quotes and backslashes is printed as it is |
| KeyNotation.ControlsPrinted | readline/bind.c:735-788 | Control characters are printed with `\C-` and a lower-case letter or by their escape, ESC as `\e`, DEL as `\C-?` |
| KeyNotation.RoundTrip | readline/bind.c:522-788 | Parsing what was printed gives the bytes back exactly when convert-meta leaves them alone |
| KeyNotation.MetaKey | readline/bind.c:622-645 | With convert-meta a meta key is ESC and the same key without meta, else that key with its eighth bit set |
| KeyNotation.ComposeLength | readline/bind.c:523-650 | The parser's output is at most twice its input and never empty for some text |
| Display.Differ.Redisplay | readline/display.c:1958-2577 | On a terminal that is honest for the width of the line the screen shows the new line and the cursor is where the library believes |
| Display.Differ.UpdateLine | readline/display.c:1958-2577 | The cells after an incremental update, for any terminal, are those of the specification, and the believed column is the real one |
| Display.Differ.FindRegion | readline/display.c:1958-2077 | The first difference and the common tails, with the white-space rule |
| Display.Differ.Lengthen | readline/display.c:2343-2464 | Opens a gap and writes into it, or writes on |
| Display.Differ.Shorten | readline/display.c:2465-2577 | Deletes and writes, or writes over and clears |
| Display.Differ.MoveCursorRelative | readline/display.c:2717-2864 | Moves the cursor by backspacing, returning or printing again, and leaves the cells alone |
| Display.Differ.OpenSomeSpaces | readline/display.c:3249-3281 | Opens a gap by whichever capability is used, and says whether insert mode is left on |
| Display.Differ.DeleteChars | readline/display.c:3285-3304 | Pulls the rest of the line left |
| Display.Differ.ClearToEol | readline/display.c:3195-3217 | Clears the rest of the line, by capability or with blanks |
| DisplaySpec.RedrawIsRightIffHonest | readline/display.c:1958-2577 | On a screen of any width every pair of lines is updated correctly if and only if the terminal description is honest for that width |
| DisplaySpec.HonestRedraw | readline/display.c:1958-2577 | On an honest terminal an incremental update equals a full redraw |
| DisplaySpec.DishonestRedraw | readline/display.c:3195-3304 | On any other terminal some update goes wrong |
| DisplaySpec.ScanBackFacts | readline/display.c:2029-2077 | The backward scan stops at equal distances from both ends, with equal text after it |
| DisplaySpec.RegionIs | readline/display.c:1958-2077 | The region begins at the first difference and ends where the longest common end begins, unless that is all blanks |
| Prompt.ExpandPrompt | readline/display.c:355-542 | Strips the markers, counts visible and invisible bytes, and records each wrap after exactly that many screen widths of visible bytes, past closed invisible runs, within the estimated array |
| Prompt.CorrectUnique | readline/display.c:381-407 | The result is determined, so the short cut returns what the loop would |
| Prompt.ShortCircuit | readline/display.c:381-407 | A short prompt without invisible text is its own expansion |
| Prompt.MarkersHide | readline/display.c:429-479 | The markers are dropped and the text between them is copied but not visible |
| Prompt.VisibleRun | readline/display.c:460-497 | Other text is copied and visible |
| Prompt.FirstLineCount | readline/display.c:435-538 | The invisible bytes counted for the first screen line are those before the first wrap, or all if it does not wrap |
| Prompt.WrapPointUnique | readline/display.c:498-514 | Only one position is the wrap after a given number of visible bytes |
| Prompt.Close | readline/display.c:435-454 | Closing an invisible run moves a wrap just before it past it and corrects the first-line count |
| Prompt.Show | readline/display.c:481-522 | A visible byte that fills a screen line adds a wrap and none else |
| Prompt.RoomForWraps | readline/display.c:409-419 | The estimated array has room for every wrap and the terminator |
| Tokenizer.HistoryTokenize | readline/histexpand.c:1627-1675 | The words are non-empty, disjoint, increasing spans, those of the specification, and everything outside them is blank |
| TokenGrammar.LineIsSplit | readline/histexpand.c:1475-1675 | A line of words made of plain, escaped, quoted and grouped pieces, of operators and of redirections, with blanks or nothing between them where that is unambiguous, is split into exactly those |
| TokenGrammar.WordIsToken | readline/histexpand.c:1547-1606 | A word made of such pieces is one token, whatever blank or operator comes after it |
| TokenGrammar.QuotesKeepTogether | readline/histexpand.c:1548-1604 | Text in single, double or back quotes is one word with what stands before it |
| TokenGrammar.BackslashKeepsTogether | readline/histexpand.c:1553-1565 | So is a character after a backslash |
| TokenGrammar.PlainTextIsSplit | readline/histexpand.c:1475-1675 | Text without quotes, backslashes, parentheses and operators is split at its blanks and nowhere else |
| TokenGrammar.OperatorIsToken | readline/histexpand.c:1505-1530 | Each operator and redirection is one word, with a descriptor in front if it takes one |
| TokenGrammar.DuplicationIsToken | readline/histexpand.c:1517-1526 | So is a redirection from or to a descriptor, which may be closed |
| TokenGrammar.SubstitutionIsToken | readline/histexpand.c:1533-1541 | So is a process substitution, however its parentheses are nested |
| TokenGrammar.GroupIsWordIff | readline/histexpand.c:1588-1596 | A balanced group after `$`, `!`, `@`, `?`, `+` or `*` is one word if and only if it is not empty and does not begin with a parenthesis |
| TokenGrammar.ArithmeticFallsApart | readline/histexpand.c:1588-1596 | The text for which that fails: `$((1))` |
| Tokenizer.TokenizeWord | readline/histexpand.c:1476-1607 | The end of a word, operator or redirection, with quotes and nesting |
| Tokenizer.GetWord | readline/histexpand.c:1547-1606 | The loop over a word with its pending delimiter and nesting level |
| Tokenizer.HistoryArgExtract | readline/histexpand.c:1417-1473 | The selected words with single spaces between them, or nothing when the selection is invalid |
| Tokenizer.ArgRangeMeans | readline/histexpand.c:1410-1448 | Which words two numbers select, counting from the left or from the right |
| Tokenizer.ArgRangeOutside | readline/histexpand.c:1426-1448 | A number that is no word's selects nothing |
| Tokenizer.WordByNumber | readline/histexpand.c:1437-1448 | A word is selected by its number if and only if the number is not 36 or the line has 37 words |
| Tokenizer.ExtractAllIsNormal | readline/histexpand.c:1417-1473 | Extracting all words and splitting again gives the same words |
| TokenSpec.NormalForm | readline/histexpand.c:1475-1675 | Splitting the joined words of any readable line gives the same words |
| TokenSpec.TokenLenStable | readline/histexpand.c:1476-1607 | A word is read again from its own text, whatever separator follows |
| TokenSpec.ScanLenStable | readline/histexpand.c:1547-1606 | The word loop does not depend on what ends the word |
| TokenSpec.SafeLinesAreReadable | readline/histexpand.c:1475-1675 | Every line that ends in neither a backslash nor an opening parenthesis is split within its bounds |
| Substitution.Substitute | readline/histexpand.c:738-833 | Replaces all leftmost non-overlapping occurrences or the first; fails exactly when there is none; never looks at replaced text again |
| Substitution.SplitIsTheLeftmost | readline/histexpand.c:748-833 | There is exactly one leftmost non-overlapping way to take a text apart, the one replaced |
| Substitution.OntoIsGlue | readline/histexpand.c:771-826 | Rebuilding the text from left to right gives that replacement |
| Substitution.PostprocSubstRhs | readline/histexpand.c:492-521 | Puts the pattern for every unprotected ampersand; all writes lie in the growing buffer, the final NUL if and only if the text does not fill it |
| Substitution.RoomForNul | readline/histexpand.c:497-519 | A replacement that ends in an unprotected ampersand leaves room for the NUL, so does one whose text is shorter than replacement and pattern together, and of those just as long only the former do |
| Substitution.SingleAmpersandFits | readline/histexpand.c:498-519 | One unprotected ampersand always leaves room for the NUL |
| Substitution.TwoAmpersandsMayFill | readline/histexpand.c:498-519 | Two may fill the buffer exactly |
| Substitution.ProtectedIsLiteral | readline/histexpand.c:492-521 | Every replacement text can be written by protecting its ampersands |
| Substitution.AmpersandIsPattern | readline/histexpand.c:498-516 | An ampersand that no backslash precedes stands for the pattern |
| ShellQuote.SingleQuote | readline/shell.c:95-120 | A shell reads the result as one word, the text itself; it fits its buffer |
| ShellQuote.QuoteBreaks | readline/histexpand.c:336-374 | A shell reads the result as the pieces of the text between its blanks, empty ones too; the size computed is exact |
| ShellQuote.PiecesRejoin | readline/histexpand.c:336-374 | The pieces hold no blank and with the blanks between them are the text |
| HistoryFileSpec.FileRoundTrip | readline/histfile.c:358-446 | A stamped list written and read back is the same list if and only if no piece of a line is empty, ends in CR or looks like a timestamp |
| HistoryFile.HistoryList.SaveAndRestore | readline/histfile.c:358-446 | The list written and read into a fresh list: the same entries, under the same condition and only then |
| HistoryFile.HistoryList.SaveAndRestoreLines | readline/histfile.c:358-446 | The same without timestamps: the same lines if and only if each is a single plain piece |
| HistoryFileSpec.UnstampedRoundTrip | readline/histfile.c:402-440 | That if-and-only-if, for every list |
| HistoryFileSpec.StampedSeparateRoundTrip | readline/histfile.c:402-440 | With timestamps but multi-line entries off, lines and timestamps come back if and only if each line is a single plain piece |
| HistoryFileSpec.ReadUnstamped | readline/histfile.c:402-440 | A file without timestamps adds an entry for every line that is not empty, without its carriage return; with multi-line entries on the lines continue the last entry |
| HistoryFileSpec.NoCommentCharacter | readline/histfile.c:369-379 | Without a comment character, a file that does not begin with `#` and a digit has no timestamps |
| HistoryFileSpec.StampsAre | readline/histfile.c:410-417 | A timestamp is the comment character and a digit |
| HistoryFileSpec.NoTimestampWritten | readline/histfile.c:725-775 | An entry without a timestamp is written without one |
| HistoryFileSpec.LinesRoundTrip | readline/histfile.c:402-440 | The same on the lines of the file |
| HistoryFileSpec.EmptyLineIsLost | readline/histfile.c:415-432 | An entry with an empty line does not survive |
| HistoryFileSpec.LinesOfText | readline/histfile.c:402-410 | A file made of lines has those lines |
| HistoryFileSpec.AbsorbAllGains | readline/histfile.c:415-432 | Reading adds to the list exactly the weight of the lines that are kept |
| HistoryFile.HistoryList.ReadHistory | readline/histfile.c:358-446 | The list after reading a file, what became of the multi-line setting, and the count of lines; without timestamps, one new entry for every line that is not empty, or all of them in the last entry |
| HistoryFile.HistoryList.ReadLines | readline/histfile.c:402-440 | The loop over the buffer does what every complete line does, in order |
| HistoryFile.HistoryList.AbsorbText | readline/histfile.c:415-432 | A timestamp is remembered; a line is added or joined to the last entry and takes the timestamp |
| HistoryFile.HistoryList.WriteHistory | readline/histfile.c:725-775 | The text of the last entries, in a buffer of exactly the computed size |
| HistoryFile.HistoryList.AddHistory | readline/history.c:279-334 | Appends an entry; a full list loses its first entry and keeps the numbers of the others |
| HistoryFile.HistoryList.AddHistoryTime | readline/history.c:338-347 | Changes the timestamp of the last entry only |
| HistoryFile.HistoryList.AppendHistoryLine | readline/history.c:410-437 | Joins a line to one entry and leaves the others alone |
| Browse.Browser.Run | readline/misc.c:542-648 | Any run of moves, insertions and other changes leads to the state the steps lead to; the buffers are those of a line of independent buffers after every action if and only if no move leaves an untracked line, and each then holds what it was last given; the result tells whether an insertion was joined to the undo list of its own entry |
| BrowseSpec.AgreesIffLosesNothing | readline/misc.c:330-344 | The if-and-only-if, for every state, every run and every prefix of it |
| BrowseSpec.StepView | readline/misc.c:330-344 | One action does to the state what it does to independent buffers if and only if it does not leave an untracked line |
| BrowseSpec.JoinsNoneLosesNothing | readline/text.c:103-114 | From a tracked line, no move leaves an untracked one unless an insertion was joined to the undo list of its own entry |
| BrowseSpec.LongInsertionsJoinNone | readline/text.c:103-114 | Only insertions of a single character are ever joined, in any run |
| BrowseSpec.SingleInsertion | readline/text.c:103-114 | A character joins the undo list there is exactly if the newest record is an insertion of fewer than twenty characters that ends at point |
| BrowseSpec.TypingIsGrouped | readline/text.c:103-114 | Characters typed one after the other are recorded in groups of twenty |
| Browse.Browser.RunAndReturn | readline/misc.c:348-365 | Back at the bottom after a run in which no move leaves an untracked line, the line is the one last left there |
| BrowseSpec.BuffersAreIndependent | readline/misc.c:559-648 | In a line of buffers each holds what it was last given |
| Browse.Browser.GetNextHistory | readline/misc.c:559-592 | Moves down at most to the bottom; of the line it leaves it keeps the text, or the stored text if the undo list is the entry's own; no other buffer changes and the unfinished line is kept |
| Browse.Browser.GetPreviousHistory | readline/misc.c:597-648 | Moves up at most to the top, likewise, also on an empty history |
| Browse.Browser.BeginningOfHistory | readline/misc.c:542-545 | Goes to the first entry, likewise |
| Browse.Browser.GoToEndOfHistory | readline/misc.c:549-555 | Goes to the unfinished line, likewise |
| Browse.Browser.InsertText | readline/text.c:86-119 | Inserts at point; joins the newest undo record or starts a new list by the rule of the source; the change is tracked if and only if it did not join the entry's own list |
| Browse.Browser.InsertAndLeave | readline/text.c:103-114 | An insertion is lost by moving away if and only if it was joined to the entry's own undo list |
| BrowseSpec.JoinedInsertionIsLost | readline/text.c:103-114 | A character typed after the stored one: the buffers before, with it, and after moving away |
| Browse.TypeLeaveAndReturn | readline/misc.c:559-648 | Typing a character, moving away and coming back leads to that state |
| Browse.Browser.MaybeReplaceLine | readline/misc.c:330-344 | Stores the current history line exactly when its undo list changed |
| Browse.Browser.MaybeSaveLine | readline/misc.c:369-380 | Saves the line unless one is saved |
| Browse.Browser.MaybeUnsaveLine | readline/misc.c:348-365 | Restores the saved line if there is one |
| Browse.Browser.FreeSavedHistoryLine | readline/misc.c:383-401 | Forgets the saved line, and the undo list with it |
| Browse.Browser.PreviousHistory | readline/history.c:199-202 | One entry up, or none at the top |
| Browse.Browser.NextHistory | readline/history.c:208-211 | One entry down; none at or past the last |
| KillRing.Editor.KillRunAndYank | readline/kill.c:163-521 | A run of kills that each take text is undone by one yank, and uses one slot of the ring |
| KillRing.Editor.KillRun | readline/kill.c:163-183 | After any such run the newest entry put back at point gives the line as it was |
| KillRing.Editor.CopyToKillRing | readline/kill.c:91-155 | Merges at the right end or opens a slot, dropping only the oldest of ten |
| KillRing.RingKeepsTen | readline/kill.c:91-155 | A new entry comes last behind the newest nine; a further kill changes the last entry only, at the right end |
| KillRing.Editor.KillText | readline/kill.c:163-183 | Removes and remembers the text; killing nothing still counts as a kill |
| KillRing.Editor.KillForward | readline/kill.c:197-260 | A forward kill appends and leaves point alone |
| KillRing.Editor.KillBackward | readline/kill.c:220-286 | A backward kill prepends and moves point |
| KillRing.Editor.UnixWordRubout | readline/kill.c:307-334 | Kills back over blank-delimited words: exactly the blanks before point, a word and so on, up to a blank; always something unless at the start |
| KillRing.WordsBackIs | readline/kill.c:319-326 | That many times, back over blanks and then over a word up to the blank before it |
| KillRing.OneWordBackIsUnique | readline/kill.c:319-326 | There is only one such place |
| KillRing.Editor.UnixLineDiscard | readline/kill.c:406-418 | Kills back to the start of the line |
| KillRing.Editor.Execute | readline/readline.c:577-701 | A command that killed nothing ends the run of kills |
| KillRing.Editor.Yank | readline/kill.c:510-521 | Inserts the current entry at point |
| Conditionals.ProgramMeans | readline/bind.c:1255-1497 | A well-nested file sets exactly what it means, or nothing where parsing is off, and leaves stack and flag as they were |
| Conditionals.VersionBlock | readline/bind.c:1376-1400 | What a block on the version sets, for each comparison |
| Conditionals.TerminalNames | readline/bind.c:1286-1304 | A terminal is known by its whole name and by the part before the first dash, whatever the case |
| Conditionals.NamedConditions | readline/bind.c:1305-1452 | Applications, modes and variables are compared by name without regard to case |
| Conditionals.PartsMean | readline/bind.c:1460-1497 | The parts of a block alternate, however many `$else` lines there are |
| Conditionals.ExecSound | readline/bind.c:1255-1497 | Every line keeps the stack monotone: once off, everything inside is off |
| Conditionals.UnmatchedIgnored | readline/bind.c:1460-1497 | Unmatched `$else` and `$endif` change nothing |
| Conditionals.Parser.ReadProgram | readline/bind.c:1609-1630 | Reading a well-nested file gives what it means |
| Conditionals.Parser.ReadInitFile | readline/bind.c:1609-1630 | Reading any file is executing its lines in order |
| Conditionals.Parser.ParserIf | readline/bind.c:1255-1456 | Pushes the flag and sets it by the condition unless it was set |
| Conditionals.Parser.ParserElse | readline/bind.c:1460-1485 | Inverts the flag unless some enclosing level is off |
| Conditionals.Parser.ParserEndif | readline/bind.c:1490-1497 | Pops the flag |
| MacroStack.Macros.Run | readline/macro.c:93-204 | A run of pushes and reads delivers the keys of one stream, popped late or at once, exactly as long as every push finds the nesting below the limit |
| MacroStack.NestingLimit | readline/macro.c:93-109 | Seventeen macros can be nested |
| MacroStack.Macros.NextMacroKey | readline/macro.c:114-137 | The next key of the stream or 0 at its end, and which macro is left; ends although it recurses |
| MacroStack.Macros.WithMacroInput | readline/macro.c:93-109 | The string comes before everything else; one macro too many aborts them all |
| MacroStack.Macros.PopExecutingMacro | readline/macro.c:183-204 | Goes back to the interrupted macro; the level is the depth of the stack |
| MacroStack.Macros.PrevMacroKey | readline/macro.c:152-162 | Steps back in the executing macro |
| MacroStack.Macros.CallLastKbdMacro | readline/macro.c:291-306 | Pushes that many copies, exactly when the limit allows; a negative count aborts everything |
| MacroStack.KeyInput.ReadKey | readline/input.c:752-765 | Keys of macros come before those of the ring |
| MacroStack.KeyInput.PutBack | readline/readline.c:937-940 | A key goes back into the macro being read, whatever the key, or into the ring when no macro is left |
| MacroStack.KeyInput.PutBackAll | readline/readline.c:1140-1155 | Keys put back in turn come first again if and only if the macro being read has just read them, or no macro is left and the ring has room |
| MacroStack.KeyInput.ReadAndPutBack | readline/readline.c:937-954 | Reading some keys and putting back the last of them restores what was pending if and only if the macro left after those keys has just read them, or none is left and the ring has room |
| MacroStack.AfterIsReader | readline/macro.c:114-137 | Which macro is left after a number of keys, popped late or at once |
| MacroStack.OneMacroTakesBack | readline/macro.c:114-162 | Keys that all come from one macro can be put back unless it was popped with the last of them |
| MacroStack.StartInsideAnother | readline/macro.c:93-137 | The state of the next two members is reached, in either mode, by starting a macro, reading a key and starting another |
| MacroStack.KeyInput.PutBackInWrongMacro | readline/macro.c:128-131 | In callback mode, inside another macro, the last key of a macro is replaced by one of the outer macro |
| MacroStack.KeyInput.SequencePutBackInWrongMacro | readline/macro.c:121-125 | Otherwise the same happens to a sequence that crosses the end of the inner macro |
| Utf8.FindPrevUtf8Char | readline/mbutil.c:245-288 | On well-formed text the backward scan finds what the forward scan finds, at every position |
| Utf8.FindPrevForward | readline/mbutil.c:291-351 | The forward scan finds the last character start before a position |
| Utf8.BackToStart | readline/rlmbutil.h:187-189 | In well-formed text a character starts at the last byte that is no tail byte |
| Utf8.StartBeforeIs | readline/mbutil.c:291-351 | The position lies in or just after the character found |
| Utf8.IllFormedBytes | readline/mbutil.c:291-351 | Bytes that start no character count as one each |
| Utf8.MblenIsLength | readline/mbutil.c:87-148 | The length is that of section 4 of RFC 3629, if and only if the first byte is not F4 |
| Utf8.MblenSeesStart | readline/mbutil.c:87-148 | An incomplete character is recognised, with the same exception |

## Left out

- Dispatch.Session.RecursiveCommand: key-sequence timeouts, vi mode, macro input, meta conversion and entries for the lowercase version are not modelled, and the starting map hides nothing.
- Dispatch.Session.CallbackCommand: under the same conditions.
- Binding.Bindings.BindKeys: keymaps form a tree, and a function or macro is bound, not a keymap; unbinding a sequence of one key from 128 up without convert-meta, the test for a submap to fold away uses that key as a signed character and looks before the start of the map; the model tests the key's own entry, and folds nothing.
- Display.Differ.Redisplay: one screen line of bytes with one face, no invisible prompt bytes, and the plain comparison of characters; multibyte widths, wrapping onto further lines and horizontal scrolling are left out.
- Prompt.ExpandPrompt: byte mode, a screen width above zero, and the mode string already part of the prompt.
- Tokenizer.HistoryTokenize: lines that would be read past their end, some of those ending in a backslash or an opening parenthesis, default delimiters and no comment character.
- TokenGrammar.GroupIsWordIff: for groups with quotes, backslashes or further openers inside only one direction is stated (`TokenGrammar.WordIsToken`): with those a group that begins with a parenthesis can come out whole by accident.
- Substitution.PostprocSubstRhs: the pattern is not empty; with an ampersand in the replacement and no earlier pattern or search string, the pattern to copy is a null pointer, before the error for an empty pattern is raised.
- Substitution.Substitute: the by-words form (`:G`) and parsing of the modifier.
- HistoryFile.HistoryList.ReadHistory: the whole file is read, without NUL bytes, into a list that is not stifled, and the clock stands still; ranges, truncation and file errors are left out.
- Browse.Browser.Run: undoing changes, and reverting lines to their saved state; of an undo list only the newest record is modelled, and changes other than insertions always add one; the mark and keeping point while moving are left out.
- KillRing.Editor.KillRunAndYank: emacs mode and kills that start at point; kills of a region, of the whole line and of file names are left out, and so are the rules for where a word ends (the end of the motion is a parameter).
- Conditionals.Parser.ParserIf: conditions are given as read, so their syntax is left out, and so is `$include`.
- MacroStack.KeyInput.ReadAndPutBack: discarding macros in the middle, peeking at the next key and the terminal are left out.
- Utf8.FindPrevUtf8Char: on ill-formed text it is only stated that the result lies before the position; filtering of zero-width characters is left out.
- Completion, colours, searching, vi mode, undo, terminal set-up, signals, memory management and the other programs in the repository.
