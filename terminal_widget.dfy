/**
 * The terminal widget of src/terminal-widget.c, without the emulator and
 * toolkit it wraps: preparing the child's command and environment, the
 * custom command and custom title it stores, the title it shows, and the
 * window-size arithmetic it hands to the toolkit.
 *
 * What the emulator, the toolkit and the C library report (the login
 * shell, the realized and mapped flags, the X window id and display name,
 * the window title, the grid metrics, the pid returned by fork) comes in
 * as parameters.
 */
module TerminalWidget {
  import opened GLibStrings

  // ---------------------------------------------------------------------
  // The child's environment

  /** Variables the child must not inherit; an entry is dropped when it starts with one of them followed by '='. */
  const StrippedNames: seq<string> :=
    ["COLUMNS", "LINES", "WINDOWID", "TERM", "GNOME_DESKTOP_ICON", "COLORTERM", "DISPLAY"]

  /** The seven prefix tests, in the source's order. */
  predicate IsStripped(entry: string): (stripped: bool)
    ensures stripped <==> exists k :: 0 <= k < |StrippedNames| && StartsWith(entry, StrippedNames[k] + "=")
  {
    assert StrippedNames[0] + "=" == "COLUMNS=" && StrippedNames[1] + "=" == "LINES=";
    assert StrippedNames[2] + "=" == "WINDOWID=" && StrippedNames[3] + "=" == "TERM=";
    assert StrippedNames[4] + "=" == "GNOME_DESKTOP_ICON=" && StrippedNames[5] + "=" == "COLORTERM=";
    assert StrippedNames[6] + "=" == "DISPLAY=";
    || StartsWith(entry, "COLUMNS=") || StartsWith(entry, "LINES=")
    || StartsWith(entry, "WINDOWID=") || StartsWith(entry, "TERM=")
    || StartsWith(entry, "GNOME_DESKTOP_ICON=") || StartsWith(entry, "COLORTERM=")
    || StartsWith(entry, "DISPLAY=")
  }

  /** Whether the emulator's widget is realized, and then its X window id and display name. */
  datatype Realization = Unrealized | Realized(windowId: nat, displayName: string)

  /** The parent's entries that survive, in their original order. */
  function Kept(environ: seq<string>): (kept: seq<string>)
    ensures |kept| <= |environ|
  {
    if environ == [] then []
    else
      var last := environ[|environ| - 1];
      Kept(environ[..|environ| - 1]) + (if IsStripped(last) then [] else [last])
  }

  /** The entry that sets name to value. */
  function Assignment(name: string, value: string): string {
    name + "=" + value
  }

  /** Among '='-free names, an assignment is read back only under its own name, and then as its value. */
  lemma ReadAssignment(name: string, value: string, other: string)
    requires '=' !in name && '=' !in other
    ensures StartsWith(Assignment(name, value), other + "=") <==> other == name
    ensures Assignment(name, value)[|name| + 1..] == value
  {
    var e := Assignment(name, value);
    assert StartsWith(e, name + "=") by { assert e[..|name| + 1] == name + "="; }
    if StartsWith(e, other + "=") {
      NameClash(e, other, name);
    }
  }

  /** The entries the terminal adds after the kept ones. */
  function Extras(terminal: Realization): (extras: seq<string>)
    ensures 1 <= |extras| <= 3
  {
    [Assignment("COLORTERM", "Terminal")]
    + (if terminal.Realized? then
         [Assignment("WINDOWID", Decimal(terminal.windowId)), Assignment("DISPLAY", terminal.displayName)]
       else [])
  }

  /** The environment handed to the child, without its NULL terminator. */
  function ChildEnv(environ: seq<string>, terminal: Realization): seq<string> {
    Kept(environ) + Extras(terminal)
  }

  /** The entries of a NULL-terminated vector, as non-NULL slots. */
  function Present(entries: seq<string>): (slots: seq<Option<string>>)
    ensures |slots| == |entries|
    ensures None !in slots
    ensures forall i :: 0 <= i < |entries| ==> slots[i] == Some(entries[i])
  {
    seq(|entries|, i requires 0 <= i < |entries| => Some(entries[i]))
  }

  /** Different vectors have different slots. */
  lemma PresentInjective(a: seq<string>, b: seq<string>)
    requires Present(a) == Present(b)
    ensures a == b
  {
    assert |a| == |Present(a)| == |b|;
    forall i | 0 <= i < |a| ensures a[i] == b[i] {
      assert Present(a)[i] == Present(b)[i];
    }
  }

  /** The strings in non-NULL slots. */
  function Unwrap(slots: seq<Option<string>>): (entries: seq<string>)
    requires None !in slots
    ensures Present(entries) == slots
  {
    var entries := seq(|slots|, i requires 0 <= i < |slots| => slots[i].value);
    assert forall i :: 0 <= i < |slots| ==> slots[i] == Some(entries[i]);
    entries
  }

  /**
   * terminal_widget_get_child_environment: a vector of |environ| + 5 slots
   * filled through a running counter with the kept entries, then
   * COLORTERM=Terminal and, when realized, WINDOWID and DISPLAY, then the
   * NULL terminator.
   */
  method ChildEnvironment(environ: seq<string>, terminal: Realization)
    returns (result: array<Option<string>>)
    ensures result.Length == |environ| + 1 + 4
    ensures None in result[..]
    ensures TakeUntil(result[..], None) == Present(ChildEnv(environ, terminal))
  {
    result := new Option<string>[|environ| + 1 + 4](_ => None);
    var n := 0;
    for i := 0 to |environ|
      invariant n <= i
      invariant result[..n] == Present(Kept(environ[..i]))
    {
      assert environ[..i + 1][..i] == environ[..i];
      if !IsStripped(environ[i]) {
        result[n] := Some(environ[i]);
        n := n + 1;
      }
    }
    assert environ[..|environ|] == environ;
    result[n] := Some(Assignment("COLORTERM", "Terminal"));
    n := n + 1;
    if terminal.Realized? {
      result[n] := Some(Assignment("WINDOWID", Decimal(terminal.windowId)));
      n := n + 1;
      result[n] := Some(Assignment("DISPLAY", terminal.displayName));
      n := n + 1;
    }
    result[n] := None;
    assert result[..n] == Present(ChildEnv(environ, terminal));
    assert result[..][..n] == result[..n];
    TakeUntilAt(result[..], None, n);
  }

  /**
   * How the child reads a variable (getenv): the value of the first entry
   * that starts with name followed by '='.
   */
  function Getenv(env: seq<string>, name: string): Option<string> {
    if env == [] then None
    else if StartsWith(env[0], name + "=") then Some(env[0][|name| + 1..])
    else Getenv(env[1..], name)
  }

  lemma {:induction false} GetenvAppend(a: seq<string>, b: seq<string>, name: string)
    ensures Getenv(a + b, name) == if Getenv(a, name).Some? then Getenv(a, name) else Getenv(b, name)
  {
    if a != [] {
      assert (a + b)[0] == a[0] && (a + b)[1..] == a[1..] + b;
      GetenvAppend(a[1..], b, name);
      assert Getenv(a + b, name)
             == if StartsWith(a[0], name + "=") then Some(a[0][|name| + 1..]) else Getenv(a[1..] + b, name);
    } else {
      assert a + b == b;
    }
  }

  /** Two '='-free names that both prefix an entry (with their '=') are one name. */
  lemma NameClash(entry: string, x: string, y: string)
    requires '=' !in x && '=' !in y
    requires StartsWith(entry, x + "=") && StartsWith(entry, y + "=")
    ensures x == y
  {
    assert entry[..|x|] == x && entry[|x|] == '=';
    assert entry[..|y|] == y && entry[|y|] == '=';
  }

  lemma StrippedNamesHaveNoEquals()
    ensures forall k :: 0 <= k < |StrippedNames| ==> '=' !in StrippedNames[k]
  {
  }

  /** A stripped variable is never visible among the kept entries. */
  lemma {:induction false} KeptHidesStripped(environ: seq<string>, k: nat)
    requires k < |StrippedNames|
    ensures Getenv(Kept(environ), StrippedNames[k]) == None
  {
    if environ != [] {
      var init, last := environ[..|environ| - 1], environ[|environ| - 1];
      KeptHidesStripped(init, k);
      var tail := if IsStripped(last) then [] else [last];
      GetenvAppend(Kept(init), tail, StrippedNames[k]);
      if !IsStripped(last) {
        assert !StartsWith(last, StrippedNames[k] + "=");
        assert Getenv(tail, StrippedNames[k]) == Getenv([], StrippedNames[k]);
      }
    }
  }

  /** Every other variable reads the same among the kept entries as in the parent's environment. */
  lemma {:induction false} KeptPassesOthers(environ: seq<string>, name: string)
    requires '=' !in name && name !in StrippedNames
    ensures Getenv(Kept(environ), name) == Getenv(environ, name)
  {
    if environ != [] {
      var init, last := environ[..|environ| - 1], environ[|environ| - 1];
      assert environ == init + [last];
      KeptPassesOthers(init, name);
      var tail := if IsStripped(last) then [] else [last];
      GetenvAppend(Kept(init), tail, name);
      GetenvAppend(init, [last], name);
      if IsStripped(last) {
        var k :| 0 <= k < |StrippedNames| && StartsWith(last, StrippedNames[k] + "=");
        StrippedNamesHaveNoEquals();
        if StartsWith(last, name + "=") {
          NameClash(last, name, StrippedNames[k]);
          assert false;
        }
        assert Getenv([last], name) == Getenv([], name);
      }
    }
  }

  /**
   * What the child sees of the variables the terminal controls:
   * COLORTERM is "Terminal"; WINDOWID and DISPLAY are set exactly when the
   * widget is realized, to its window id and display name; COLUMNS,
   * LINES, TERM and GNOME_DESKTOP_ICON are unset.
   */
  lemma ChildEnvOverrides(environ: seq<string>, terminal: Realization)
    ensures Getenv(ChildEnv(environ, terminal), "COLORTERM") == Some("Terminal")
    ensures Getenv(ChildEnv(environ, terminal), "WINDOWID")
            == if terminal.Realized? then Some(Decimal(terminal.windowId)) else None
    ensures Getenv(ChildEnv(environ, terminal), "DISPLAY")
            == if terminal.Realized? then Some(terminal.displayName) else None
    ensures Getenv(ChildEnv(environ, terminal), "COLUMNS") == None
    ensures Getenv(ChildEnv(environ, terminal), "LINES") == None
    ensures Getenv(ChildEnv(environ, terminal), "TERM") == None
    ensures Getenv(ChildEnv(environ, terminal), "GNOME_DESKTOP_ICON") == None
  {
    ChildEnvReadsExtras(environ, terminal, 0);
    ChildEnvReadsExtras(environ, terminal, 1);
    ChildEnvReadsExtras(environ, terminal, 2);
    ChildEnvReadsExtras(environ, terminal, 3);
    ChildEnvReadsExtras(environ, terminal, 4);
    ChildEnvReadsExtras(environ, terminal, 5);
    ChildEnvReadsExtras(environ, terminal, 6);
    ExtrasRead(terminal, "COLORTERM");
    ExtrasRead(terminal, "WINDOWID");
    ExtrasRead(terminal, "DISPLAY");
    ExtrasRead(terminal, "COLUMNS");
    ExtrasRead(terminal, "LINES");
    ExtrasRead(terminal, "TERM");
    ExtrasRead(terminal, "GNOME_DESKTOP_ICON");
  }

  /** A stripped variable is read from the added entries alone. */
  lemma ChildEnvReadsExtras(environ: seq<string>, terminal: Realization, k: nat)
    requires k < |StrippedNames|
    ensures Getenv(ChildEnv(environ, terminal), StrippedNames[k]) == Getenv(Extras(terminal), StrippedNames[k])
  {
    KeptHidesStripped(environ, k);
    GetenvAppend(Kept(environ), Extras(terminal), StrippedNames[k]);
  }

  /** Reading any '='-free name from the extra entries. */
  lemma ExtrasRead(terminal: Realization, name: string)
    requires '=' !in name
    ensures Getenv(Extras(terminal), name)
            == if name == "COLORTERM" then Some("Terminal")
               else if terminal.Realized? && name == "WINDOWID" then Some(Decimal(terminal.windowId))
               else if terminal.Realized? && name == "DISPLAY" then Some(terminal.displayName)
               else None
  {
    var rest: seq<string> := [];
    if terminal.Realized? {
      GetenvFront("DISPLAY", terminal.displayName, [], name);
      rest := [Assignment("WINDOWID", Decimal(terminal.windowId)), Assignment("DISPLAY", terminal.displayName)];
      assert rest == [Assignment("WINDOWID", Decimal(terminal.windowId))] + [Assignment("DISPLAY", terminal.displayName)];
      GetenvFront("WINDOWID", Decimal(terminal.windowId), [Assignment("DISPLAY", terminal.displayName)], name);
    }
    assert Extras(terminal) == [Assignment("COLORTERM", "Terminal")] + rest;
    GetenvFront("COLORTERM", "Terminal", rest, name);
  }

  /** Reading a name from an environment that starts with an assignment. */
  lemma GetenvFront(first: string, value: string, rest: seq<string>, name: string)
    requires '=' !in first && '=' !in name
    ensures Getenv([Assignment(first, value)] + rest, name)
            == if name == first then Some(value) else Getenv(rest, name)
  {
    var env := [Assignment(first, value)] + rest;
    ReadAssignment(first, value, name);
    assert env[0] == Assignment(first, value) && env[1..] == rest;
  }

  /** Every variable the terminal does not control reaches the child as the parent had it. */
  lemma ChildEnvPassesOthers(environ: seq<string>, terminal: Realization, name: string)
    requires '=' !in name && name !in StrippedNames
    ensures Getenv(ChildEnv(environ, terminal), name) == Getenv(environ, name)
  {
    KeptPassesOthers(environ, name);
    GetenvAppend(Kept(environ), Extras(terminal), name);
    ExtrasHideOthers(terminal, name);
  }

  lemma ExtrasHideOthers(terminal: Realization, name: string)
    requires '=' !in name && name !in StrippedNames
    ensures Getenv(Extras(terminal), name) == None
  {
    ExtrasRead(terminal, name);
  }

  /** An entry survives exactly when it is the parent's and is not stripped. */
  lemma {:induction false} KeptMembers(environ: seq<string>, entry: string)
    ensures entry in Kept(environ) <==> entry in environ && !IsStripped(entry)
  {
    if environ != [] {
      var init, last := environ[..|environ| - 1], environ[|environ| - 1];
      assert environ == init + [last];
      KeptMembers(init, entry);
    }
  }

  // ---------------------------------------------------------------------
  // The widget's own state

  /** The properties whose change the widget announces. */
  datatype Property = CustomTitleProperty | TitleProperty

  /** A program and its argument vector (argv[0] first). */
  datatype Command = Command(program: string, argv: seq<string>)

  /** What is handed to the emulator's fork: program, argv, environment and working directory. */
  datatype Spawn = Spawn(program: string, argv: seq<string>, env: seq<string>, workingDirectory: string)

  class Widget {
    /** The custom command vector, None for NULL. */
    var customCommand: Option<seq<string>>
    /** The custom title; the empty string means none. */
    var customTitle: string
    var workingDirectory: string
    /** The pid of the child, as fork returned it. */
    var pid: int
    /** The property notifications emitted so far, oldest first. */
    var notifications: seq<Property>

    ghost predicate Valid()
      reads this
    {
      && (customCommand.Some? ==> |customCommand.value| > 0)
      && IsCString(customTitle)
    }

    /** terminal_widget_init as far as these fields go; cwd is the current directory at creation. */
    constructor (cwd: string)
      ensures Valid()
      ensures customCommand == None && customTitle == "" && notifications == []
      ensures workingDirectory == cwd && pid == 0
    {
      customCommand := None;
      customTitle := "";
      workingDirectory := cwd;
      pid := 0;
      notifications := [];
    }

    /**
     * terminal_widget_get_child_command: the custom command if one is set,
     * otherwise the login shell (None when the user is unknown) with argv
     * holding only its name after the last '/'.
     */
    function ChildCommand(loginShell: Option<string>): (r: Result<Command>)
      reads this
      requires Valid()
      ensures r.Err? <==> customCommand.None? && loginShell.None?
      ensures r.Err? ==> r.message == "Current user unknown"
      ensures customCommand.Some? ==> r == Ok(Command(customCommand.value[0], customCommand.value))
      ensures customCommand.None? && loginShell.Some? ==>
                r.Ok? && r.value.program == loginShell.value && r.value.argv == [ShellName(loginShell.value)]
    {
      if customCommand.Some? then
        Ok(Command(customCommand.value[0], customCommand.value))
      else if loginShell.None? then
        Err("Current user unknown")
      else
        Ok(Command(loginShell.value, [ShellName(loginShell.value)]))
    }

    /** Whatever the source of the command, argv[0] is a '/'-free suffix of the program or the program itself. */
    lemma ArgvZeroNamesProgram(loginShell: Option<string>)
      requires Valid()
      requires ChildCommand(loginShell).Ok?
      ensures var c := ChildCommand(loginShell).value;
              |c.argv| >= 1 && |c.argv[0]| <= |c.program|
              && c.argv[0] == c.program[|c.program| - |c.argv[0]|..]
              && (c.argv[0] == c.program || '/' !in c.argv[0])
    {
    }

    /**
     * terminal_widget_launch_child: with no command (unknown user) it
     * returns without forking; otherwise it forks the command with the
     * child environment in the working directory and keeps the pid.
     */
    method LaunchChild(loginShell: Option<string>, environ: seq<string>, terminal: Realization,
                       fork: Spawn -> int)
      returns (spawn: Option<Spawn>)
      requires Valid()
      modifies this`pid
      ensures spawn.None? <==> ChildCommand(loginShell).Err?
      ensures spawn.None? ==> pid == old(pid)
      ensures spawn.Some? ==>
                var c := ChildCommand(loginShell).value;
                && spawn.value == Spawn(c.program, c.argv, ChildEnv(environ, terminal), workingDirectory)
                && pid == fork(spawn.value)
    {
      var command := ChildCommand(loginShell);
      if command.Err? {
        return None;
      }
      var env := ChildEnvironment(environ, terminal);
      var slots := TakeUntil(env[..], None);
      var entries := Unwrap(slots);
      PresentInjective(entries, ChildEnv(environ, terminal));
      spawn := Some(Spawn(command.value.program, command.value.argv, entries, workingDirectory));
      pid := fork(spawn.value);
    }

    /** terminal_widget_set_custom_command: NULL or an empty vector clears, anything else is stored. */
    method SetCustomCommand(command: Option<seq<string>>)
      requires Valid()
      modifies this`customCommand
      ensures Valid()
      ensures customCommand == if command.Some? && |command.value| > 0 then command else None
    {
      if command.Some? && |command.value| > 0 {
        customCommand := command;
      } else {
        customCommand := None;
      }
    }

    /**
     * terminal_widget_set_custom_title: only a title that differs from the
     * current one in more than ASCII case is stored, and then
     * "custom-title" and "title" are announced, in that order.
     */
    method SetCustomTitle(title: string)
      requires Valid() && IsCString(title)
      modifies this`customTitle, this`notifications
      ensures Valid()
      ensures AsciiDown(old(customTitle)) == AsciiDown(title) ==>
                customTitle == old(customTitle) && notifications == old(notifications)
      ensures AsciiDown(old(customTitle)) != AsciiDown(title) ==>
                customTitle == title && notifications == old(notifications) + [CustomTitleProperty, TitleProperty]
      ensures AsciiDown(customTitle) == AsciiDown(title)
      ensures title != "" ==> forall windowTitle :: AsciiDown(Title(windowTitle)) == AsciiDown(title)
    {
      AsciiStrcasecmpZeroIff(customTitle, title);
      if AsciiStrcasecmp(customTitle, title) != 0 {
        customTitle := title;
        notifications := notifications + [CustomTitleProperty, TitleProperty];
      }
      if title != "" {
        AsciiStrcasecmpZeroIff(customTitle, title);
        AsciiCaseEqualLength(customTitle, title);
      }
    }

    /**
     * terminal_widget_get_title: the custom title when set, otherwise the
     * emulator's window title when it has one, otherwise "Untitled".
     */
    function Title(windowTitle: Option<string>): (t: string)
      reads this
      ensures customTitle != "" ==> t == customTitle
      ensures customTitle == "" && windowTitle.Some? ==> t == windowTitle.value
      ensures customTitle == "" && windowTitle.None? ==> t == "Untitled"
    {
      if customTitle != "" then customTitle
      else if windowTitle.Some? then windowTitle.value
      else "Untitled"
    }

    /** The title is empty only when no custom title is set and the emulator reports an empty one. */
    lemma TitleEmptyOnlyFromEmulator(windowTitle: Option<string>)
      ensures Title(windowTitle) == "" <==> customTitle == "" && windowTitle == Some("")
    {
    }
  }

  // ---------------------------------------------------------------------
  // Window geometry

  datatype Requisition = Requisition(width: int, height: int)

  /** What the emulator reports of its grid: the counts, the cell size and the padding. */
  datatype Grid = Grid(columnCount: int, rowCount: int, charWidth: int, charHeight: int, xpad: int, ypad: int)

  /** What terminal_widget_force_resize_window does to the window. */
  datatype WindowSizing =
    | InvalidSize(width: int, height: int, rows: int, columns: int)   // logged, window untouched
    | Resize(width: int, height: int)                                 // window mapped
    | SetDefaultSize(width: int, height: int)                         // window not yet mapped

  /** A negative forced count falls back to the current one. */
  function ForcedCount(forced: int, current: int): (n: int)
    ensures forced >= 0 ==> n == forced
    ensures forced < 0 ==> n == current
  {
    if forced < 0 then current else forced
  }

  /**
   * terminal_widget_force_resize_window: the window's size beyond the
   * terminal (window minus terminal requisition), plus the padding, plus
   * the cells of the wanted grid; refused when either side is negative.
   */
  function ForceResizeWindow(window: Requisition, terminal: Requisition, grid: Grid,
                             forceColumns: int, forceRows: int, mapped: bool): (r: WindowSizing)
    ensures var columns := ForcedCount(forceColumns, grid.columnCount);
            var rows := ForcedCount(forceRows, grid.rowCount);
            && r.width - (window.width - terminal.width) - grid.xpad == grid.charWidth * columns
            && r.height - (window.height - terminal.height) - grid.ypad == grid.charHeight * rows
            && (r.InvalidSize? <==> r.width < 0 || r.height < 0)
            && (r.InvalidSize? ==> r.rows == rows && r.columns == columns)
            && (r.Resize? <==> !r.InvalidSize? && mapped)
  {
    var columns := ForcedCount(forceColumns, grid.columnCount);
    var rows := ForcedCount(forceRows, grid.rowCount);
    var width := window.width - terminal.width + grid.xpad + grid.charWidth * columns;
    var height := window.height - terminal.height + grid.ypad + grid.charHeight * rows;
    if width < 0 || height < 0 then InvalidSize(width, height, rows, columns)
    else if mapped then Resize(width, height)
    else SetDefaultSize(width, height)
  }

  /** The hints of terminal_widget_set_window_geometry_hints. */
  datatype GeometryHints = GeometryHints(baseWidth: int, baseHeight: int, widthInc: int, heightInc: int,
                                         minWidth: int, minHeight: int)

  /** Base size = padding, increment = one cell, minimum = 4 columns by 2 rows of cells. */
  function WindowGeometryHints(grid: Grid): (h: GeometryHints)
    ensures h.baseWidth == grid.xpad && h.baseHeight == grid.ypad
    ensures h.widthInc == grid.charWidth && h.heightInc == grid.charHeight
    ensures h.minWidth - h.baseWidth == 4 * h.widthInc
    ensures h.minHeight - h.baseHeight == 2 * h.heightInc
  {
    GeometryHints(grid.xpad, grid.ypad, grid.charWidth, grid.charHeight,
                  grid.xpad + grid.charWidth * 4, grid.ypad + grid.charHeight * 2)
  }

  /** A negative forced count means "the current one". */
  lemma ForceResizeFallback(window: Requisition, terminal: Requisition, grid: Grid,
                            forceColumns: int, forceRows: int, mapped: bool)
    requires forceColumns < 0 && forceRows < 0
    ensures ForceResizeWindow(window, terminal, grid, forceColumns, forceRows, mapped)
            == ForceResizeWindow(window, terminal, grid, grid.columnCount, grid.rowCount, mapped)
  {
  }

  /**
   * Forcing a window whose size beyond the terminal is not negative to at
   * least the hinted 4 by 2 cells is never refused, meets the hinted
   * minimum, and lands on the hints' cell grid.
   */
  lemma ForceResizeMeetsHints(window: Requisition, terminal: Requisition, grid: Grid,
                              columns: int, rows: int, mapped: bool)
    requires window.width >= terminal.width && window.height >= terminal.height
    requires grid.charWidth > 0 && grid.charHeight > 0 && grid.xpad >= 0 && grid.ypad >= 0
    requires columns >= 4 && rows >= 2
    ensures var r := ForceResizeWindow(window, terminal, grid, columns, rows, mapped);
            var h := WindowGeometryHints(grid);
            var extraWidth := window.width - terminal.width;
            var extraHeight := window.height - terminal.height;
            && !r.InvalidSize?
            && r.width - extraWidth >= h.minWidth && r.height - extraHeight >= h.minHeight
            && (r.width - extraWidth - h.baseWidth) % h.widthInc == 0
            && (r.width - extraWidth - h.baseWidth) / h.widthInc == columns
            && (r.height - extraHeight - h.baseHeight) % h.heightInc == 0
            && (r.height - extraHeight - h.baseHeight) / h.heightInc == rows
  {
    Cells(grid.charWidth, columns, 4);
    Cells(grid.charHeight, rows, 2);
  }

  /** n cells of size c are a whole number of cells, and at least k of them when n >= k. */
  lemma Cells(c: int, n: int, k: int)
    requires c > 0 && n >= k
    ensures c * n >= c * k
    ensures (c * n) % c == 0 && (c * n) / c == n
  {
  }
}
