# osso-xterm core in Dafny

A model of the decision and string logic of osso-xterm, the X terminal of
the Maemo platform, with proofs of what that logic promises.

- `glib_strings.dfy` (module `GLibStrings`): the C library and GLib string
  helpers the core relies on. These are NUL-terminated reads, `strncmp`
  prefix tests, `g_ascii_strcasecmp`, `g_strsplit` on `"\r\n"`,
  `g_strjoinv`, the `strrchr` basename idiom and `"%ld"` formatting.
- `terminal_widget.dfy` (module `TerminalWidget`): the terminal widget of
  `src/terminal-widget.c`. It covers the child's environment (an array
  filled through a running counter), the child's command, the class
  `Widget` with its custom command, custom title, pid and property
  notifications, the title precedence, and the force-resize and
  geometry-hint arithmetic.
- `terminal_drop.dfy` (module `TerminalDrop`): the drag-and-drop handler.
  It covers the format and length checks per target, the Mozilla URL
  decoding loop, and the URI-list split, in-place conversion loop and
  join.
- `xterm_main.dfy` (module `XtermMain`): `src/main.c`. It covers the
  command-line selection, the forward-or-become-primary decision (as the
  trace of actions `main` takes), and the `run_command` RPC handler.

C strings are Dafny strings whose characters stand for bytes; a C string
holds no NUL. Payloads are sequences of a `Byte` newtype. What external
libraries answer comes in as parameters:

- the login shell from `getpwuid`, `None` for an unknown user;
- `g_filename_from_uri`, `gtk_selection_data_get_text`, and the UTF-8
  encoding done by `g_string_append_unichar`;
- whether the terminal is realized (with its X window id and display
  name), whether the window is mapped, and the emulator's window title,
  grid counts, cell size and padding;
- the pid returned by the emulator's fork;
- what the buses answer (system bus open, service name owned, session
  bus open, message built);
- whether `osso_initialize` succeeded, and the result of
  `terminal_app_wrapper_launch`.

The drop handler returns what it would feed to the child rather than
calling the emulator. `main` is modelled by the sequence of actions it
takes, ending with its exit status.

## Model

| member | source | states |
|---|---|---|
| TerminalWidget.ChildEnvironment | src/terminal-widget.c:540-583 | Allocates exactly \|environ\| + 5 slots. Holds a NULL terminator. The entries before the first NULL are exactly the kept entries of environ in their original order, then COLORTERM=Terminal, then WINDOWID and DISPLAY only when realized. |
| TerminalWidget.Kept | src/terminal-widget.c:553-570 | The kept entries are never more than the parent's entries. |
| TerminalWidget.KeptMembers | src/terminal-widget.c:553-570 | An entry survives exactly when the parent has it and it starts with none of the seven stripped names followed by '='. |
| TerminalWidget.IsStripped | src/terminal-widget.c:555-561 | The seven strncmp tests hold exactly when the entry starts with one of the stripped names followed by '='. |
| TerminalWidget.KeptHidesStripped | src/terminal-widget.c:555-561 | None of the seven stripped variables can be read from the kept entries. |
| TerminalWidget.KeptPassesOthers | src/terminal-widget.c:565-569 | Every other variable reads from the kept entries exactly as from the parent's environment. |
| TerminalWidget.Extras | src/terminal-widget.c:572-578 | The terminal adds one to three entries, which with the NULL fits the five spare slots. |
| TerminalWidget.ChildEnvOverrides | src/terminal-widget.c:553-580 | The child reads COLORTERM as "Terminal". It sees WINDOWID and DISPLAY exactly when the widget is realized, as its window id and display name. COLUMNS, LINES, TERM and GNOME_DESKTOP_ICON are unset. |
| TerminalWidget.ChildEnvPassesOthers | src/terminal-widget.c:553-580 | Every variable the terminal does not control reaches the child as the parent had it. |
| TerminalWidget.ExtrasRead | src/terminal-widget.c:572-578 | Reading any name from the added entries gives the terminal's value for COLORTERM, WINDOWID and DISPLAY and nothing for any other name. |
| TerminalWidget.ReadAssignment | src/terminal-widget.c:572-577 | An entry NAME=value matches a prefix other= only for other == NAME, and reads back as value. |
| TerminalWidget.Widget.constructor | src/terminal-widget.c:278-279 | A new widget has no custom command, an empty custom title and the current directory as working directory. |
| TerminalWidget.Widget.ChildCommand | src/terminal-widget.c:500-535 | A custom command gives program = its first element and argv = the vector. Otherwise the login shell is the program and argv is its name after the last '/'. An unknown user fails with "Current user unknown", and only then. |
| TerminalWidget.Widget.ArgvZeroNamesProgram | src/terminal-widget.c:507-532 | argv[0] is a suffix of the program: the program itself, or the '/'-free part after its last '/'. |
| TerminalWidget.Widget.LaunchChild | src/terminal-widget.c:993-1020 | Without a command nothing is forked and the pid is unchanged. Otherwise the command, argv, child environment and working directory go to fork, and the pid is what fork returned. |
| TerminalWidget.Widget.SetCustomCommand | src/terminal-widget.c:1027-1039 | A NULL or empty vector clears the custom command. Any other vector is stored. |
| TerminalWidget.Widget.SetCustomTitle | src/terminal-widget.c:1048-1060 | A title equal to the current one up to ASCII case changes nothing and announces nothing. Any other title is stored, and "custom-title" then "title" are announced once each. A non-empty title then decides the shown title up to case. |
| TerminalWidget.Widget.Title | src/terminal-widget.c:1181-1199 | A non-empty custom title wins. Otherwise the emulator's window title is shown when it has one, otherwise "Untitled". |
| TerminalWidget.Widget.TitleEmptyOnlyFromEmulator | src/terminal-widget.c:1188-1196 | The shown title is empty only when no custom title is set and the emulator reports an empty title. |
| TerminalWidget.ForcedCount | src/terminal-widget.c:1114-1122 | A negative forced count falls back to the current count. Any other count is used as given. |
| TerminalWidget.ForceResizeWindow | src/terminal-widget.c:1093-1146 | Width = (window minus terminal requisition) + xpad + char_width × columns, and height likewise. A negative width or height is refused with the four values logged. Otherwise a mapped window is resized and an unmapped one gets a default size. |
| TerminalWidget.ForceResizeFallback | src/terminal-widget.c:1114-1122 | Negative forced counts size the window exactly as the current counts do. |
| TerminalWidget.WindowGeometryHints | src/terminal-widget.c:1149-1176 | The base size is the padding and the increment is one cell. The minimum is the base plus 4 columns and 2 rows of cells. |
| TerminalWidget.ForceResizeMeetsHints | src/terminal-widget.c:1093-1163 | With positive cells, non-negative padding and extras, forcing at least 4 by 2 cells is never refused. The result meets the hinted minimum and lands on the hints' cell grid at exactly the forced counts. |
| TerminalDrop.DragDataReceived | src/terminal-widget.c:680-784 | The handler's outcome equals Dropped, the reference definition per target: text drops feed the selection text up to its first NUL when that is non-empty; text/plain feeds the payload bytes; a Mozilla URL feeds its local path up to a NUL, else the whole URL; a URI list feeds the converted entries joined with spaces, up to a NUL; bad format or length is logged instead. |
| TerminalDrop.DropRefusals | src/terminal-widget.c:698-758 | text/plain and URI-list drops are refused, with format and length logged, exactly when not 8-bit or empty. Mozilla URL drops are also refused at odd length. Text drops are never refused and feed only non-empty text. What text and URI-list drops feed holds no NUL. |
| TerminalDrop.Units | src/terminal-widget.c:735-737 | A payload holds length / 2 code units, each read from its two bytes. |
| TerminalDrop.DecodeMozUrl | src/terminal-widget.c:734-738 | The decoded units are the longest newline-free prefix of the payload's length / 2 units. |
| TerminalDrop.MozUrlStopsAtNewline | src/terminal-widget.c:737-738 | Units after the first newline unit never reach the URL. |
| TerminalDrop.MozUrlInput | src/terminal-widget.c:739-748 | When the URL (read up to a NUL) converts to a local path, the path up to its first NUL is fed; otherwise the whole decoded URL is fed. |
| TerminalDrop.ConvertUris | src/terminal-widget.c:765-773 | The loop replaces in place each entry that converts to a local path and leaves the others. |
| TerminalDrop.DropUriList | src/terminal-widget.c:759-780 | The payload up to a NUL is split on "\r\n", converted entry by entry and joined with single spaces. |
| TerminalDrop.ToFilenames | src/terminal-widget.c:765-773 | Conversion keeps the number of entries. |
| TerminalDrop.ToFilenamesIdentity | src/terminal-widget.c:765-773 | When nothing converts, the entries are unchanged. |
| TerminalDrop.UriListUnconverted | src/terminal-widget.c:759-780 | When nothing converts, the child gets the payload with each "\r\n" turned into one space. |
| TerminalDrop.UriListOfEntries | src/terminal-widget.c:759-780 | A payload of "\r\n"-separated entries reaches the child as those entries, converted one by one and joined with single spaces. |
| TerminalDrop.UriListFeedsWholeList | src/terminal-widget.c:761-778 | With a converter that returns C strings, the strlen of the joined list is all of it: an accepted URI list feeds the whole space-joined list. |
| GLibStrings.PiecesCString | src/terminal-widget.c:761-762 | The pieces of a split C string are C strings. |
| GLibStrings.JoinCString | src/terminal-widget.c:777 | Joining C strings with a C-string separator gives a C string. |
| TerminalDrop.UriListOfFileUris | src/terminal-widget.c:759-780 | When the converter turns exactly the "file://" URIs into paths, two dropped file URIs reach the child as their two paths separated by one space. |
| TerminalDrop.FileUriKeepsCStrings | src/terminal-widget.c:765-773 | The "file://" converter used in the examples turns C strings into C strings, so the joined list has no NUL to cut at. |
| TerminalDrop.FileUrisDropped | src/terminal-widget.c:753-780 | An accepted 8-bit URI-list drop of "file://p\r\nfile://q" feeds "p q" to the child. |
| TerminalDrop.UriListExample | src/terminal-widget.c:753-780 | An accepted 8-bit URI-list drop of the bytes "file:///tmp/a.txt\r\nfile:///tmp/b.txt" feeds "/tmp/a.txt /tmp/b.txt". |
| TerminalDrop.ByteString | src/terminal-widget.c:717-722 | Each byte of the payload is fed as one character. |
| GLibStrings.TakeUntil | src/terminal-widget.c:761 | A terminated read is a prefix without the terminator that stops at the first terminator or at the end. |
| GLibStrings.TakeUntilUnique | src/terminal-widget.c:761 | Those three properties determine the read. |
| GLibStrings.AsciiStrcasecmp | src/terminal-widget.c:1053 | Strings equal up to ASCII case compare as 0; the converse on C strings is AsciiStrcasecmpZeroIff. |
| GLibStrings.AsciiStrcasecmpZeroIff | src/terminal-widget.c:1053 | On C strings, g_ascii_strcasecmp returns 0 exactly when the strings agree up to ASCII case. |
| GLibStrings.AsciiCaseEqualLength | src/terminal-widget.c:1053 | Strings equal up to ASCII case have the same length. |
| GLibStrings.AsciiDown | src/terminal-widget.c:1053 | Lowering keeps the length and lowers each ASCII capital. |
| GLibStrings.SplitCrlf | src/terminal-widget.c:762 | "" splits into no pieces. Any other string splits into "\r\n"-free pieces that join back with "\r\n" into it. |
| GLibStrings.PiecesAtFirstCrlf | src/terminal-widget.c:762 | Separators are matched leftmost first: the text before the first "\r\n" is the first piece and the rest is split again. |
| GLibStrings.Join | src/terminal-widget.c:777 | The first part starts the joined string. |
| GLibStrings.SplitCrlfJoin | src/terminal-widget.c:762 | Joining the split pieces back with "\r\n" gives the split string. |
| GLibStrings.PiecesJoin | src/terminal-widget.c:762 | Joining the pieces back with "\r\n" gives the string. |
| GLibStrings.PiecesNoCrlf | src/terminal-widget.c:762 | No piece of the split holds "\r\n". |
| GLibStrings.JoinPieces | src/terminal-widget.c:762 | Splitting a "\r\n"-join of "\r\n"-free pieces gives the pieces back. |
| GLibStrings.PiecesJoinSpace | src/terminal-widget.c:762-777 | Splitting on "\r\n" and joining with " " replaces each "\r\n" by one space. |
| GLibStrings.ShellName | src/terminal-widget.c:521-525 | The name is a '/'-free suffix of the path: the whole path, or what follows its last '/'. |
| GLibStrings.Decimal | src/terminal-widget.c:576 | The window id is written as a non-empty string of decimal digits without a leading zero. |
| GLibStrings.DecimalUnique | src/terminal-widget.c:576 | Any digit string without a leading zero that is worth n is Decimal(n), so the spelling of WINDOWID is determined. |
| GLibStrings.DecimalRoundTrip | src/terminal-widget.c:576 | Reading those digits back gives the window id. |
| XtermMain.SelectCommand | src/main.c:91-95 | After a leading "-e" with a following argument the command is argv[2]. Otherwise it is argv[1] when there is one, otherwise none. |
| XtermMain.LoneDashEIsTheCommand | src/main.c:91-95 | A lone "-e" is taken as the command itself. |
| XtermMain.AlreadyRunning | src/main.c:97-100 | Without a system bus the service counts as not running; with one, it is running exactly when its name has an owner. |
| XtermMain.RunCommandCall | src/main.c:105-117 | The call is a no-reply "run_command" to com.nokia.xterm at /com/nokia/xterm on interface com.nokia.xterm, and its arguments read back as the command. |
| XtermMain.CommandArgs | src/main.c:112-116 | A command is sent as one string argument, and no command as no argument. |
| XtermMain.RequestedCommand | src/main.c:57-60 | The handler takes a command only from a first argument typed as a string. |
| XtermMain.CommandArgsRoundTrip | src/main.c:57-60 | The handler reads back exactly the command a second instance sent. |
| XtermMain.Incoming | src/main.c:43-68 | Any method but "run_command" gets the string "Meh" and OSSO_ERROR. "run_command" gets OSSO_OK and a boolean equal to the launch result for the requested command. |
| XtermMain.StartupTrace | src/main.c:97-155 | Every run of main ends with an exit status. |
| XtermMain.ForwardWhenRunning | src/main.c:98-121 | When the name is owned, no wrapper is created, nothing is launched and no handler is registered. Exactly one "run_command" call with the selected command is sent, followed by success. A missing session bus or message exits with failure. |
| XtermMain.PrimaryWhenNotRunning | src/main.c:123-154 | When the name is not owned, nothing is sent and the wrapper comes first. The handler is registered exactly when initialisation and the first launch succeed. The exit status is failure exactly when one of them failed. |
| XtermMain.HandlerAfterLaunch | src/main.c:134-143 | The handler is registered only right after a successful launch of the selected command. |
| XtermMain.ForwardedCommandIsLaunched | src/main.c:98-121 | A call that main sends is a no-reply "run_command" to the service. The command Incoming reads from it is the selected one. |

## Left out

- Widget creation beyond the fields above, and the GConf subscription, reads and callbacks (`terminal_widget_init`, the `gconf_*` callbacks). These are configuration-service plumbing, and the default substitution at src/terminal-widget.c:373-375 and 385-404 is not modelled.
- The emulator and toolkit calls: fork, feeding the child, colours, fonts, scrollbar, clipboard, reset, input-method menu, size request, resize, `terminal_widget_get_size` and `terminal_widget_set_size`. They are foreign widget calls. The model returns what would be fed or requested instead.
- `terminal_widget_get_working_directory`: it depends on reading `/proc/<pid>/cwd` and on `chdir`, which are OS I/O.
- `terminal_widget_finalize`, including its unremoved `reverse_conid` notification. Memory release has no counterpart in the model.
- `getpwuid`, `g_filename_from_uri`, `gtk_selection_data_get_text` and the UTF-8 encoding of code units are parameters. The URI and Unicode standards are not reimplemented.
- The translation of "Untitled" and of the diagnostics by gettext. The model uses the untranslated strings.
- `gtk_init` (src/main.c:89): its removal of the toolkit's own options from argv, and its exit when no display can be opened, which comes before the bus is queried. `SelectCommand` receives argv after that removal, and `StartupTrace` starts after a successful `gtk_init`.
- The D-Bus and libosso transport, flushing, `gtk_main` and `osso_deinitialize`. `main` is modelled by the actions it takes, not by their effects on the bus.
- TerminalWidget.Widget.SetCustomTitle: does not model a NULL title, because `g_ascii_strcasecmp` on NULL depends on the library's guard. Titles are C strings.
- TerminalWidget.ForceResizeWindow: does not model 32-bit `gint` overflow of the sizes, because realistic grid metrics stay far below it. The arithmetic is on unbounded integers.
- TerminalDrop.DragDataReceived: does not model a negative selection length, which the toolkit uses when retrieval failed. The length is the payload's byte count.
- TerminalDrop.UnitAt: reads code units little-endian, the byte order of the device. A big-endian host is not modelled.
