# IRCIT in Dafny

IRCIT is a text-mode IRC client written in C. This project models the parts of
it that are algorithms rather than screens, and proves what they keep, lose and
restore. Every file is one component:

- `Match.dfy` - the wildcard matcher. It reads a pattern from its right end and
  remembers one `*` only. It is proved equal to the textbook left-to-right
  meaning of the pattern's tokens, for every pattern shorter than 32767 bytes,
  the odd cases of `%` and of the backslash included; and every pattern that is
  spelled clearly matches what its writer means by it.
- `Windows.dfy`, `StackEffects.dfy`, `WindowStack.dfy` - overlapping windows that
  save what they cover. What each operation does to the stack is defined on
  values; after any run of operations the stack is what they make of it, the
  screen is the base picture with these windows painted on it from bottom to
  top, and every saved buffer is the composition beneath its window.
- `SplitLine.dfy` - the line wrapper that works in one buffer and steps its
  input pointer back. It is proved equal to a wrapping defined line by line;
  that wrapping loses nothing, keeps lines within 77 cells and can be undone, and
  the lines are the only ones that lay the message out by its rules.
- `SymbolTable.dfy`, `Alias.dfy`, `List.dfy` - the sorted command table with
  prefix search, and the aliases mirrored in it.
- `ChanUsers.dfy` - the users of a channel, on one list and on hash chains.
- `SocketQueue.dfy` - chunks from a socket in, IRC lines out (section 2.3 of
  RFC 1459).
- `Dcc.dfy` - the DCC file transfer, as a protocol of two parties, each with its
  own block size, over two channels that may break.
- `Prefs.dfy`, `ConfigFile.dfy`, `ConfigLines.dfy` - the tree of preferences,
  writing and reading the configuration file, and what its reader makes of lines
  that others have written.
- `Number.dfy` - number printing and reading.
- `ChanMode.dfy` - channel modes as text.
- `ChannelIds.dfy` - ids of open channels.
- `History.dfy` - the bounded input history.
- `InputLine.dfy` - the line editor.
- `CString.dfy` - bytes, case folding and string comparison.

Code that changes things in place is modelled by methods that do: arrays,
linked nodes and fields, with the loops of the source. Each is tied by its
`ensures` to a function of the old state, and what the program is for is proved
about those functions. What such a function says is also proved in terms that do
not use it: bytes, places and lengths, what is found where.

A predicate that is written as a `match` of one case stands for a whole
invariant. Dafny takes a plain predicate apart wherever it has to be proved,
whether or not the proof has hidden it; the `match` keeps it in one piece, so
that proofs can pass it on by name and only a few small lemmas look inside.

Six properties turned out to need a condition, and the condition is exact:

- Deleting a command puts a name of one byte, 0xFE, in its place, sorts, and
  drops the last entry. That is deletion exactly when the renamed entry comes
  last, which is when every other name sorts below that byte, unless another
  command has that very name (`SymbolTable.RemovalIsExact`); and only then do the
  aliases and the table stay in step (`Alias.RemoveAlias`). With an alias named
  by the byte 0xFF they do not (`Alias.OutOfStep`); with names below 0xFE they do
  through any run of definitions and removals (`Alias.Session`).
- A file transfer over an unbroken connection on which acknowledgements arrive
  whole is certain to deliver the file exactly when, as long as there is more to
  send, no number of full reads leaves the sender less than the one
  acknowledgement that it wants (`Dcc.DeliveredExactly`). Where both ends have
  acknowledgements of one size, that is: the file fits the first block, or a
  block, which is one byte less than BLOCK_SIZE, has room for one and either is a
  multiple of it or holds half of the file (`Dcc.SuitsAlike`). Where
  acknowledgements may arrive in parts, delivery is certain exactly for files that
  fit the first block (`Dcc.DeliveredAnyhow`).
- The lines cut from a socket are those of the stream, however it is cut into
  chunks, exactly when a carriage return that comes before a line feed is always
  directly followed by one (`SocketQueue.AnyChunks`). With no line end queued, a
  chunk leaves one behind exactly when it joins a queued part and has a carriage
  return but no line feed (`SocketQueue.JoinLeavesNoLine`).
- The configuration file is read 78 bytes at a time. Settings that are new to the
  tree all come back from a written file, whose other lines are short, exactly
  when every setting's line has at most 78 bytes (`ConfigFile.AllComeBack`); one
  long setting among short ones is lost (`ConfigFile.SettingComesBack`), and the
  rest of a long one can cost a short one behind it (`ConfigFile.LostToTheRest`).
- Channel modes with both a key and a limit are printed with the letters in one
  order and the parameters in the other. They survive printing and reading
  exactly when the key is the limit written out (`ChanMode.RoundTrip`).
- The smallest free channel id fits the id table exactly while fewer than ten
  channels are open (`ChannelIds.Pigeonhole`).

`dafny verify dfyconfig.toml` checks the project.

## Model

| member | source | states |
|---|---|---|
| Match.Match | src/match.c:76-169 | The result is non-zero exactly when the pattern's tokens glob the whole text without regard to case (`%` signs at the very front being optional); without `%` it is then 1 plus the number of literal tokens. Said without tokens: a pattern of clearly spelled parts - bytes, quoted or not, `?` and `*` - gives 1 plus the bytes it names for exactly the texts that its parts mean, and 0 for others; so do a pattern of quoted bytes, one without special bytes but `?`, and one with a `*` among these; `%` signs before a `*` change nothing; without `*` and backslash a `%` stands for itself or, at the front, for nothing |
| Match.Understood | src/match.c:76-169 | A clearly spelled pattern is read as the parts that its writer means, a byte behind a backslash as that byte, and the bytes it names are counted |
| Match.QuotedPattern | src/match.c:122-143 | A text with a backslash before every byte matches that text and no other, up to case |
| Match.StarPattern | src/match.c:93-118 | One `*` takes whatever is between what comes before and after it |
| Match.PaddedPattern | src/match.c:102-118 | `%` signs before a `*` belong to it |
| Match.StarlessPattern | src/match.c:145-168 | Without `*`, a `%` matches itself, and those at the front may be missing |
| CString.SameMeans | src/include/str.h:23-23 | Texts are the same when they have the same bytes, place by place, but for the case of the letters A to Z |
| CString.CmpMeans | src/prefs.c:218-223 | Texts compare as the place at which they part says, letters counting as small ones, and the shorter one first |
| CString.NCmpBegins | src/serverio.c:290-296 | The bounded comparison is zero exactly when one text starts with the other, place by place, but for the case of letters |
| Match.Scan | src/match.c:93-162 | The right-to-left loop with one remembered `*` succeeds exactly when some choice of all stars would, and counts each literal of the final assignment once |
| Match.FitsIsAccepts | src/match.c:76-169 | Reading pattern and text from the right gives the same language as the left-to-right meaning of the token list |
| Match.FirstPlaceSuffices | src/match.c:103-118 | When a second `*` is reached, any match of the earlier `*` elsewhere implies a match from where the scan stands: forgetting the earlier star loses nothing |
| Match.NoRoom | src/match.c:145-157 | When the remembered star runs out of text there is no match at all |
| Match.GlobsSnocStar | src/match.c:103-118 | A `*` at the right end may take any suffix of the text |
| Match.PlainPattern | src/match.c:76-169 | A pattern without `%` means exactly its tokens |
| Match.ScoreIsLiterals | src/match.c:128-143 | What the loop counts is the number of literal tokens |
| Windows.CheckGeometry | src/windows.c:1067-1089 | A window ends up inside the main window exactly when it is at most 17 rows by 78 columns; one that fits already stays, and any other goes to the place where no other that it fits is nearer, in rows or in columns |
| Windows.OneNearest | src/windows.c:1067-1089 | There is one nearest place only |
| Windows.Grab | src/windows.c:1164-1188 | The saving loop stores, for every cell that the window covers, what the screen shows there |
| Windows.ShutdownWindowGravityZero | src/windows.c:514-536 | Row by row from the top: every covered cell gets its saved value back and no other cell changes |
| Windows.ShutdownWindowGravityNorth | src/windows.c:613-640 | The same result from the bottom up |
| Windows.ShutdownWindowGravityWest | src/windows.c:567-610 | The same result column by column from the right, with one running index for each row |
| Windows.IndexInjective | src/windows.c:1164-1188 | Different cells of a window lie at different places of its buffer |
| Windows.Uncovered | src/windows.c:514-640 | Writing the saved cells back shows what is painted without the window |
| Windows.CellIsSeen | src/windows.c:145-214 | What is painted at a cell is the cell of the topmost window that lies there, at its own row and column, or else that of the base |
| WindowStack.Manager.LoadPrevLevel | src/windows.c:145-214 | Closing the top window leaves the others as they were, shows what they compose, and gives the new top its border |
| WindowStack.Manager.MoveWindow | src/windows.c:217-276 | The top window moves to the nearest place inside the main window to the one asked for, or just there if it keeps its coordinates, with its size and contents; order, other windows and composition are kept |
| WindowStack.Manager.TakeOut | src/windows.c:391-416 | A window can be taken out from under others, which keep their order, places and contents |
| WindowStack.Manager.BringForward | src/windows.c:367-430 | The window comes to the top, the others keep their relative order, and screen and saved buffers agree again |
| WindowStack.Manager.NextPrev | src/windows.c:435-478 | A window that must not be overlaid is closed, then the two topmost windows change places |
| WindowStack.Manager.DestroyWindow | src/windows.c:481-511 | An option menu on top of everything is closed; then exactly the window of that id goes, wherever it is in the stack, or nothing else changes |
| WindowStack.Manager.LoadStack | src/windows.c:848-924 | Windows that must not be overlaid are closed; then the window of that id comes to the front if there is one, else a new one opens on top, at the nearest place inside the main window to the one asked for |
| WindowStack.Manager.Step | src/windows.c:145-924 | Each operation has its effect on the stack as a value, and adds no windows or buffers but new ones |
| WindowStack.OpenEffect | src/windows.c:848-924 | What loading a window does to the objects is what it does to the stack as a value |
| WindowStack.CloseIdEffect | src/windows.c:481-511 | The same for closing by id |
| StackEffects.EffectAll | src/windows.c:145-924 | Whatever the operations, every window lies inside the main window with contents of its size |
| StackEffects.SettledMeans | src/windows.c:855-860 | Before a window is loaded, windows that must not be overlaid go from the top, all of them and no others |
| StackEffects.OpenFound | src/windows.c:848-924 | Loading a window that is open puts it on top and keeps the order of the others |
| StackEffects.OpenNew | src/windows.c:848-924 | Loading any other puts a new window of that size on top, at the nearest place to the one asked for, and changes no other |
| StackEffects.CloseIdFound | src/windows.c:481-511 | Closing by id takes an option menu on top and then the highest window of that id; the others keep their order |
| StackEffects.CloseIdNone | src/windows.c:481-511 | Without a window of that id, nothing but an option menu on top goes |
| StackEffects.CloseMeans | src/windows.c:145-214 | Closing takes the top window and no other |
| StackEffects.SwappedMeans | src/windows.c:435-478 | The last two of a sequence change places and no other moves |
| StackEffects.ForwardMeans | src/windows.c:367-430 | Bringing forward puts that window on top and keeps the order of the others |
| StackEffects.SwapMeans | src/windows.c:435-478 | A window on top that must not be overlaid goes, then the two topmost change places and no other moves |
| StackEffects.SwapOne | src/windows.c:435-478 | With less than two windows left then, swapping moves none |
| StackEffects.MoveMeans | src/windows.c:217-276 | A move changes the place of the top window alone, to the nearest one to the place asked for |
| StackEffects.EffectAllWears | src/windows.c:145-924 | Of the windows with an active border, after any operations, just the top one shows it in its corners |
| WindowStack.Manager.CloseAll | src/windows.c:145-214 | Closing every window restores the base picture on every cell |
| WindowStack.Manager.Session | src/windows.c:145-924 | After any run of opening, closing, bringing forward, swapping and moving, the stack - kinds, places, borders and contents, bottom to top - is what the operations make of the old one as a value, and screen and saved buffers agree with it |
| WindowStack.Desktop | src/windows.c:145-924 | From a bare screen through any such run, every cell shows what painting the windows that the operations leave, bottom to top, shows there: the topmost window's own cell, or the base |
| WindowStack.Manager.Push | src/stack.c:14-30 | Pushing a window saves what lies beneath before anything is painted, and the screen still shows the old picture around it |
| WindowStack.PromoteWorn | src/windows.c:367-430 | Borders after promotion are those of the new ranks |
| SplitLine.SplitLine | src/output.c:179-300 | For a message of at most 20 lines: an empty one gives one blank, and one of less than 77 cells without newlines gives itself; in general the lines are the message from one place to the next, each behind the blanks that a continuation has and before the newline that a cut puts in; where a line is cut, 77 cells without a newline were there, and the cut is at the last blank of them or else before the last cell. The lines are also those of the reference wrapping, each with its true length, with the ink of the message in order |
| SplitLine.OnlyLayout | src/output.c:208-296 | Any two ways of laying a message out by these rules give the same lines |
| SplitLine.LaysOut | src/output.c:208-296 | The reference wrapping lays every message out by these rules, from wherever it starts |
| SplitLine.SplitBuffered | src/output.c:215-296 | The loop over one buffer with its step back ends, never leaves the buffer, and gives exactly the lines of the reference wrapping |
| SplitLine.InkKept | src/output.c:208-296 | Concatenated, the lines have the input's non-blank, non-newline cells, all of them, in order and no others |
| SplitLine.Rejoins | src/output.c:242-292 | Dropping the added blanks and newlines gives back the input cell by cell |
| SplitLine.CutsWell | src/output.c:220-296 | Every line has at most 77 cells with newlines only at the end, and every continuation starts with two blanks |
| SplitLine.CutSoft | src/output.c:268-292 | Cutting at a blank: the line up to it with a newline, and the rest moved to the front of the buffer behind a blank |
| SplitLine.CutHard | src/output.c:244-264 | Cutting without a blank: 76 cells and a newline, and the last cell moved behind two blanks |
| SymbolTable.Table.CompleteCommand | src/serverio.c:273-353 | The exact entry alone if there is one, else every entry with the prefix once each and no other, without writing past the table's size; for the empty word too |
| SymbolTable.Table.FoundMeans | src/serverio.c:273-353 | What is found, in letters: the one entry that is the word, or else every entry whose name starts with it, once each |
| SymbolTable.HitAndExact | src/serverio.c:290-296 | What the bounded comparison finds equal is what has the word as a prefix without regard to case, and of equal length it is the word itself |
| SymbolTable.WholeRun | src/serverio.c:303-343 | Once both ends of the outward expansion have been reached, no entry outside of it has the prefix |
| CString.PrefixOrder | src/serverio.c:290-299 | Along a sorted table, comparison with a prefix only goes down, which is what binary search needs |
| SymbolTable.SortedUnique | src/serverio.c:377-382 | With different names, sorting leaves no choice |
| SymbolTable.Table.UpdateSymbolTable | src/serverio.c:385-476 | Insertion or replacement in the map from lower-cased names; the table stays strictly sorted |
| SymbolTable.Table.RemovefromSymbolTablee | src/serverio.c:479-519 | An unknown name changes nothing; a known one is deleted from the map exactly when the renamed entry is the one that sorting puts last, as it is when every other name sorts below the sentinel |
| SymbolTable.RemovalIsExact | src/serverio.c:513-517 | Sorting a sentinel to the end and dropping the end is deletion if and only if the renamed entry comes last; unless another entry has the sentinel's name, that is if and only if every other name sorts below it |
| SymbolTable.SentinelLast | src/serverio.c:513-517 | If the renamed entry is dropped the other entries are left in their order |
| SymbolTable.SentinelTwice | src/serverio.c:513-517 | If it is not, and another entry looked just like it, the table is no longer sorted strictly |
| List.List.AddtoList | src/list.c:20-43 | The new entry is the last one, and head, tail and count stay right |
| List.List.RemovefromList | src/list.c:46-105 | Exactly that entry goes, and the list stays well linked |
| Alias.AddAlias | src/alias.c:26-76 | A name that is there keeps its place and spelling and gets the new expansion, another one comes last; the table then has an entry of that name with the expansion, and its alias entries are exactly the aliases |
| Alias.RemoveAlias | src/alias.c:79-103 | The alias of that name, and no other, leaves the list, which then has none of that name; list and table are in step again exactly when its entry and no other has left the table, which is when every other command sorts below the sentinel, unless one has the sentinel's name |
| Alias.Session | src/alias.c:26-103 | Over any run of definitions and removals on names that sort below the sentinel, list and table stay in step, the list is what the operations make of it, and the last operation has done what it is for |
| Alias.OutOfStep | src/alias.c:761-766 | With an alias named by the byte 0xFF, removing another one leaves its entry in the table under the sentinel's name, deletes the wrong one, and breaks the correspondence |
| Alias.StepNotRemoved | src/alias.c:79-103 | An entry left behind under the sentinel's name is an alias that the list does not have |
| Alias.StepDefine | src/alias.c:69-73 | Setting the one table entry keeps list and table in step, whether it was an alias, a built-in command or new |
| Alias.StartsInStep | src/serverio.c:356-374 | A table of built-in commands is in step with the empty list |
| ChanUsers.HashChanuser | src/chanusers.c:29-39 | The node goes to the front of that chain, the other chains do not change |
| ChanUsers.UnhashChanuser | src/chanusers.c:42-96 | The node leaves its chain, wherever it is in it, and the other chains do not change |
| ChanUsers.SameSlot | src/str.c:369-382 | Nicks that differ in case alone hash alike |
| ChanUsers.Channel.userbychptr | src/chanusers.c:162-185 | The hash lookup finds exactly what a search of the whole list finds |
| ChanUsers.Channel.AddUserToChannel | src/chanusers.c:188-237 | A present nick changes nothing; a new one comes last on the list and into its chain |
| ChanUsers.Channel.AddChanuser | src/chanusers.c:258-294 | A user of a new nick comes last on the list and into its chain |
| ChanUsers.Channel.RemoveChanUserbychptr | src/chanusers.c:424-478 | Exactly that user leaves list and chain, the others keep their order |
| ChanUsers.Channel.RenameUser | src/chanusers.c:528-553 | The first user of the old nick, if there is one, goes by the new one, under which a search then finds it, and keeps its place on the list; every other nick is as it was, and without such a user all are; list and chains stay right although the nick is overwritten first |
| ChanUsers.UpdateChanuserNick | src/chanusers.c:513-555 | In every channel the first user of the old nick goes by the new one, the others by theirs, a search for the new nick finds it, and all lists and chains stay right |
| ChanUsers.Channel.Session | src/chanusers.c:162-553 | After any run of joins, parts and changes to nicks that nobody else has, the users are those that the run leaves, in order, and the hash finds each of them and no other; who joined last is found, who parted last is not, and who changed his nick last is found under the new one at his old place |
| ChanUsers.EffectMeans | src/chanusers.c:188-553 | What a join, a part and a change of nick do, in terms of the first place of a nick |
| SocketQueue.Socket.RemovefromSocketQueue | src/socketio.c:122-243 | The first message is cut at its first line feed, or at its first carriage return if it has no line feed; the line loses one carriage return at its end, and what is behind the cut stays in front of the queue and is asked for again. Without either it is joined with the next message, and asked for again if that has a line feed |
| SocketQueue.Socket.IRC_ServerRead | src/socketio.c:308-331 | With nothing queued, all lines of the chunk are delivered, whether or not it ends in a carriage return, and what is behind its last line end is queued. Otherwise what is queued is worked off first: if it ends a line, the chunk waits for the next read; if not, the chunk joins it, and waits if it has no line feed. So, with no line end queued before, a line end is left behind exactly when a chunk with a carriage return and no line feed joins a queued part. The lines delivered so far followed by those still queued are the lines of everything received |
| SocketQueue.Connection | src/socketio.c:68-331 | For every way to cut an orderly stream into chunks, the lines delivered are the first of its non-empty lines in order; if every chunk has a line feed or no carriage return they are all of them, and what follows the last one is queued |
| SocketQueue.AnyChunks | src/socketio.c:122-243 | For every way to cut a stream into chunks what is delivered are the first of its lines, if and only if every carriage return before a line feed is directly followed by one |
| SocketQueue.LoneReturn | src/socketio.c:136-158 | Any other stream, read in one chunk, has a carriage return inside a line that is delivered |
| SocketQueue.AtRest | src/socketio.c:308-331 | Draining two messages leaves at most one |
| SocketQueue.LeavesNoLine | src/socketio.c:136-180 | A message that is drained alone leaves no line end behind, even if it ends between the two bytes of one |
| SocketQueue.DrainedAlone | src/socketio.c:308-331 | Of a message that is drained alone exactly its lines are delivered and exactly its tail stays |
| SocketQueue.DrainedJoined | src/socketio.c:136-230 | What becomes of a chunk that comes when a message is queued, in every case |
| SocketQueue.JoinLeavesNoLine | src/socketio.c:183-230 | A chunk that joins an incomplete line leaves no line end behind if and only if it has a line feed or no carriage return |
| SocketQueue.LinesSent | src/socketio.c:122-243 | Lines sent with one or more bytes of line end behind each are the lines of the stream, and what comes behind them is its tail |
| SocketQueue.CutLine | src/socketio.c:136-158 | Cutting at the first line feed, or carriage return, and stripping takes exactly one line from the stream |
| SocketQueue.LinesSplit | src/socketio.c:122-243 | At a line end, a stream's lines are those of its two parts |
| Dcc.StepInv | src/dcc.c:790-920 | Every step of either side keeps: the receiver's file and the bytes in flight are the first `xfer` bytes of the source; while the sender is at work something is in flight; completion is reported for an identical file alone |
| Dcc.CompletedIsIdentical | src/dcc.c:955-983 | In every run, lost connections included, the receiver reports completion only when its file is the sender's |
| Dcc.EveryRunEnds | src/dcc.c:790-920 | No run has more than 9 times the file's size plus 2 steps |
| Dcc.RunsToCompletion | src/dcc.c:486-516 | Over an unbroken connection on which acknowledgements arrive whole, with settings that suit the file, a run that cannot go on has completed with an identical file and a closed sender |
| Dcc.DeliveredExactly | src/dcc.c:835-920 | Over an unbroken connection on which acknowledgements arrive whole, every run that cannot go on has delivered the file if and only if no number of full reads leaves the sender less than it wants while there is more to send |
| Dcc.SuitsAlike | src/dcc.c:849-884 | With acknowledgements of one size that is: the file fits the first block, or a block has room for one and is a multiple of it or holds half of the file |
| Dcc.SuitsNone | src/dcc.c:849-884 | A sender that wants larger acknowledgements than it gets can only send the first block |
| Dcc.DeliveredAnyhow | src/dcc.c:835-920 | If acknowledgements may arrive in parts, every run over an unbroken connection that cannot go on has delivered the file if and only if it fits the first block |
| Dcc.GivenUpForGood | src/dcc.c:851-871 | A sender that has given up sends nothing more, so the file stays incomplete |
| Dcc.GoesOn | src/dcc.c:790-983 | Every run goes on, orderly, to one that cannot |
| Dcc.InitDCCSEND | src/dcc.c:218-290 | An empty file is not offered; any other starts a transfer with its first block |
| Dcc.Transfer.SendFilePackettoSocket | src/dcc.c:835-920 | A read of less than one acknowledgement makes the sender give up; for any other the next block goes out, and the sender closes with the last byte |
| Dcc.Transfer.GetFilePacketfromSocket | src/dcc.c:790-832 | What was read is appended to the file and acknowledged |
| Dcc.Transfer.EOFDCCConnection | src/dcc.c:955-1006 | Completion is reported exactly when as many bytes came as were offered |
| Prefs.FindIsMember | src/prefs.c:207-238 | The descent finds an entry exactly when it is somewhere in the tree |
| Prefs.InsertedOrdered | src/prefs.c:120-163 | Inserting a new name keeps the tree ordered |
| Prefs.FindPut | src/prefs.c:269-323 | A new value is found under its own name and changes no other |
| Prefs.InorderSorted | src/prefs.c:173-183 | The listing is in strict order of the names |
| Prefs.Preferences.FindEntry | src/prefs.c:207-238 | The loop of the lookup computes the descent |
| Prefs.Preferences.SetPref | src/prefs.c:269-323 | A value that is not digits, or not ON or OFF, where the level asks for it is refused with -1 or -2; one that differs from the old in case alone is not stored, with 0; any other replaces it, with 1 |
| Prefs.Preferences.AddtoPrefsTable | src/prefs.c:120-163 | The loop that goes down to a free place puts a new name where the tree stays ordered, and adds that entry alone |
| ConfigFile.RoundTrip | src/configfile.c:284-406 | A well-formed configuration whose lines have at most 78 bytes, written and read back in pieces of 78 bytes, gives the same servers and notify lists in order, every saved setting up to letter case, and leaves all other settings alone |
| ConfigFile.ShortIsWhole | src/configfile.c:330-336 | Reading at most 78 bytes at a time does no harm to lines that are no longer |
| ConfigFile.AllComeBack | src/configfile.c:284-406 | From a written file whose comments and servers have short lines, all settings that are new to the tree come back if and only if every setting's line has at most 78 bytes |
| ConfigFile.SettingComesBack | src/configfile.c:284-406 | From a written file whose other lines have at most 78 bytes, a setting that is new to the tree comes back if and only if its own line has at most 78 |
| ConfigFile.LostToTheRest | src/configfile.c:330-395 | A setting of 79 bytes that ends with a bracket closes the section, and the short setting behind it is lost |
| ConfigFile.SettingSurvives | src/configfile.c:330-395 | The line of one setting, read alone in its section, brings it back if and only if it has at most 78 bytes |
| ConfigFile.NoFileHolds | src/configfile.c:330-395 | No file brings back a setting whose name and value take more than 78 bytes |
| ConfigFile.SaveAndLoad | src/configfile.c:544-651 | The same for the writing and reading methods run one after the other |
| ConfigFile.OneSection | src/configfile.c:336-395 | Whatever the file holds, at most one section is open at any time |
| ConfigFile.Client.ProcessConfigfile | src/configfile.c:284-406 | The loop over what is read, 78 bytes at most at a time, computes the reading function |
| ConfigFile.Client.WriteSETS | src/configfile.c:572-603 | The tree is written in the order of its listing, without the settings that have no value |
| ConfigFile.LoadServers | src/configfile.c:81-94 | Reading the written servers adds them in order |
| ConfigFile.LoadNames | src/notify.c:98-161 | Reading written names adds them in order, to either list |
| ConfigLines.CommentLine | src/configfile.c:332-346 | Lines of blanks and lines that start with `#` behind blanks do nothing in any section |
| ConfigLines.HeaderLine | src/configfile.c:348-389 | A header, in letters of any case and with anything behind it, opens its section and closes any other; one of the section that is open, or of none, closes it |
| ConfigLines.ServerLine | src/configfile.c:81-94 | `name:port` or `name`, with blanks around it, adds that server unless it is there; the setting DEFAULT_SERVER_PORT gives a port that is missing |
| ConfigLines.NumberMeans | src/str.c:322-336 | A port is read digit by digit in base 10 within 32 bits, up to the first byte that is no digit |
| ConfigLines.SetLineRead | src/configfile.c:105-126 | `name value` with any blanks between them sets the value; a name alone does nothing |
| ConfigLines.NamesLine | src/notify.c:98-161 | Names with commas between them and blanks around them are added one after the other, ten from a line |
| ConfigLines.AddedNames | src/notify.c:112-150 | A name of more than 32 bytes or one that is on the list, up to case, is left out, any other comes last |
| ConfigFile.SetAllFinds | src/configfile.c:105-124 | After settings of different names each is found with its value and nothing else has changed |
| ConfigFile.AtoulDecimal | src/str.c:322-336 | Reading a printed port gives the port |
| ConfigFile.AtoulIs | src/str.c:322-336 | Wrapping around at 32 bits with every digit comes to the same as doing so at the end |
| CString.DecimalRead | src/str.c:322-336 | Reading a printed number gives the number, whatever follows |
| Number.Print | src/mvsprintf.c:43-113 | The output is the field of the reference layout, for every base from 2 to 36 and all flags, and the digit buffer never overflows |
| Number.FieldWidth | src/mvsprintf.c:79-110 | The field is as wide as asked for or as sign, prefix and the larger of precision and digits need |
| Number.FieldMeans | src/mvsprintf.c:43-113 | What stands where: blanks, the sign, the mark of the base, zeros and digits, in each case of the flags; the digits are of the base and in the case asked for, have no zero in front, and denote the number |
| Number.DigitsDenote | src/mvsprintf.c:90-92 | The digits denote the number, in any base |
| Number.AtMost31 | src/mvsprintf.c:53-92 | No 31-bit number needs more than 31 digits |
| Number.PrintThenRead | src/mvsprintf.c:20-29 | Reading back a number printed in base 10, without sign and leading blanks, gives the number |
| ChanMode.Channel.RecordChanMode | src/chanrec.c:584-657 | The scan that takes parameters out of its own string reads the letters in whatever order they come: every flag among them is set, and the last `k` has the key and the last `l` the limit, each from the parameter that is its own |
| ChanMode.AtoiMeans | src/chanrec.c:636-651 | A limit is read behind blanks, with its sign |
| ChanMode.TakeParam | src/chanrec.c:616-651 | Exactly the first parameter leaves the string, which stays a string |
| ChanMode.Channel.ParseChanmode | src/chanrec.c:672-720 | The printed form: sign, letters in their fixed order, then the parameters |
| ChanMode.RoundTrip | src/chanrec.c:672-720 | Reading what was printed gives the mode back if and only if there are not both a key and a limit, or the key is the limit written out |
| ChanMode.ReadPrinted | src/chanrec.c:584-720 | With both, the flags come back and key and limit change places |
| ChanMode.ReadShown | src/chanrec.c:680-700 | Letters shown in any order are read back as the flags among them, with the limit from the first parameter |
| ChanMode.PrintAndRead | src/chanrec.c:584-720 | The same for the two methods on a buffer, one after the other |
| ChannelIds.Pigeonhole | src/chanrec.c:165-176 | The smallest free id is in range if and only if fewer than ten channels are open |
| ChannelIds.ChannelsTable.AddChannel | src/chanrec.c:154-185 | The channel comes last with the smallest unused id, from 1 to 10, and the id table leads back to it |
| ChannelIds.ChannelsTable.RemovefromChannelsTable | src/chanrec.c:188-257 | Exactly the first channel of that name goes, and its id with it; ids stay different and the id table right |
| ChannelIds.MirrorLess | src/chanrec.c:188-257 | Clearing one place of the id table is right because ids are different |
| History.InputHistory.RemovefromInputHistory | src/history.c:69-111 | That line goes, the list stays linked both ways and is numbered from 1 again |
| History.InputHistory.AddtoUserInputHistory | src/history.c:114-166 | A history of at most `sz` lines then holds the last `sz` of them and the new one; a longer one grows on |
| History.InputHistory.AdjustHistorySize | src/history.c:286-313 | The newest n lines stay, in order |
| History.Session | src/history.c:114-166 | After any run of lines the history holds exactly the last `sz` of them |
| History.LastIsEnd | src/history.c:114-166 | What is kept is the end of all that was typed |
| InputLine.Editor.NewCursorPos | src/input.c:422-460 | The cursor goes where it is sent and is inside the window or just behind it |
| InputLine.Editor.Addchar | src/input.c:463-495 | Inserts at the cursor, or does nothing to a full line |
| InputLine.Editor.Delchar | src/input.c:498-527 | Deletes that many characters before the cursor, or all there are |
| InputLine.Editor.BDelword | src/input.c:832-848 | Deletes back to the last space that is not next to the cursor |
| InputLine.Editor.FDelchar | src/input.c:851-879 | Cuts the line off at the cursor |
| InputLine.Editor.Session | src/input.c:422-950 | Every run of keys edits text and cursor as the reference does, with at most 510 characters and the cursor within its window |
| InputLine.EditMeans | src/input.c:422-950 | What each key does to what is before and behind the cursor, on a line of at most 510 characters |
| InputLine.DeleteWordMeans | src/input.c:832-848 | A word before the cursor goes with the one space that may be behind it, up to the space before it |
| InputLine.TypedAndTakenBack | src/input.c:463-527 | Typing characters and deleting as many gives the line and cursor back |

## Left out

- Patterns of 32767 bytes and more in the matcher: the count of matched characters then reaches the bit that marks a quoted character.
- The one cell before the pattern, with which the matcher compares when the pattern runs out: a mismatch here, as the source intends.
- Windows.ShutdownWindowGravityZero: also stands for the South order, which differs in refreshing the screen after every row.
- WindowStack.Manager.MoveWindow: a window with FLG_KEEPCOORDINATES that is asked out of the main window, where the source would put it; no flags set in the source combine FLG_KEEPCOORDINATES with FLG_MOVEABLE. Also, the model takes the window off the stack while it moves; the source leaves the entry in place. Screen, buffers and final stack are the same.
- StackEffects.EffectAll: the same move, which does nothing here.
- Menus, shadows, explosion effects, windows with FLG_NOBENEATH and the attributes that `whline` merges into a cell.
- SplitLine.SplitLine: messages of more than 20 lines, for which the source writes behind its table; and the previous call's lines that it frees.
- SymbolTable.Table.UpdateSymbolTable: `qsort` is an insertion sort here; the result is the same for any correct sort.
- SymbolTable.Table.RemovefromSymbolTablee: the sentinel is taken to end after its one byte, as the source means it to; which of two entries of that name comes last is up to `qsort`, and here to the insertion sort.
- ChanUsers.Channel.AddUserToChannel: finding the channel by name, the operator and netsplit counters, and refreshing an open list window.
- ChanUsers.UpdateChanuserNick: a new nick that is another user's in one of the channels, which no server allows, and nicks of 32 bytes and more; the log line of a change of nick.
- ChanUsers.Channel.RenameUser: the same new nicks.
- ChanUsers.Channel.AddChanuser: a nick that the channel has already; `AddUserToChannel` looks first.
- `ResetChanUsers` and `CheckSplitUsers`.
- SocketQueue.Socket.IRC_ServerRead: the size of `buf_q`; zero bytes in the stream; streams with a carriage return that does not come directly before the line feed behind it, whose lines depend on the chunks (`SocketQueue.AnyChunks`); and looking at the byte before an empty line.
- SocketQueue.Connection: the same streams.
- Dcc.Transfer.SendFilePackettoSocket: BLOCK_SIZE 1, with which nothing can be read, and sizes above 2050, with which the block does not fit its buffer; failed reads and writes, and the 32-bit width of the byte counts.
- Prefs.Preferences.AddtoPrefsTable: the tree is a value, so the link that the loop sets in place is modelled by rebuilding the tree around it; callbacks of preferences are not modelled; a second entry of the same name, on which the source would loop forever, is excluded.
- ConfigFile.RoundTrip: a last line without a newline, which the source does not process; section-wise saving; and the channels section, which holds nothing.
- Number.Print: the most negative integer, which cannot be negated, and negative numbers printed as unsigned, for which the source looks before its table of digits.
- ChanMode.Channel.RecordChanMode: strings with fewer parameters than letters that take one, on which the source follows a null pointer, or with more, whose rest it scans for letters; integer overflow in `atoi`.
- ChannelIds.ChannelsTable.AddChannel: an eleventh channel, which the source files behind its table; and what else joining a channel does.
- History.InputHistory.AddtoUserInputHistory: the tab history, which looks at a line before it has one.
- Sockets, signals, threads, name lookup, the FPL interpreter, timers, the people list and everything that only draws.
