/**
 * What terminal_widget_vte_drag_data_received (src/terminal-widget.c)
 * feeds to the child when something is dropped on the terminal: the text
 * of a text drop, the raw bytes of a text/plain drop, the local paths of a
 * URI list joined with spaces, or the local path (or else the URL itself)
 * of a Mozilla URL drop.
 *
 * The toolkit's text conversion, g_filename_from_uri and the UTF-8
 * encoding done by g_string_append_unichar are parameters. The feed is
 * the byte string handed to the emulator, one character per byte.
 */
module TerminalDrop {
  import opened GLibStrings

  newtype Byte = b: int | 0 <= b < 256

  /** A 16-bit code unit of a Mozilla URL payload. */
  newtype CodeUnit = u: int | 0 <= u < 0x1_0000

  /** The drop targets the terminal accepts. */
  datatype Target = UriList | Utf8String | Text | CompoundText | StringTarget | TextPlain | MozUrl

  /** A received selection: its format (bits per unit) and its bytes; its length is |data|. */
  datatype SelectionData = SelectionData(format: int, data: seq<Byte>)

  /** What a drop does: feed bytes to the child, nothing, or log a wrong format or length. */
  datatype DropOutcome = Feed(input: string) | NoInput | WrongFormat(format: int, length: int)

  /** The library calls the handler relies on. */
  datatype Library = Library(
    selectionText: Option<string>,              // gtk_selection_data_get_text
    filenameFromUri: string -> Option<string>,  // g_filename_from_uri
    utf8: seq<CodeUnit> -> string)              // a GString's bytes after appending each unit as a character

  /** Bytes read as a C-level string, one character per byte. */
  function ByteString(bytes: seq<Byte>): (s: string)
    ensures |s| == |bytes|
    ensures forall i :: 0 <= i < |bytes| ==> s[i] as int == bytes[i] as int
  {
    seq(|bytes|, i requires 0 <= i < |bytes| => (bytes[i] as int) as char)
  }

  /** Every character of s stands for one byte. */
  predicate IsByteString(s: string) {
    forall i :: 0 <= i < |s| ==> s[i] as int < 256
  }

  /** The bytes a byte string stands for. */
  function Bytes(s: string): (bytes: seq<Byte>)
    requires IsByteString(s)
    ensures ByteString(bytes) == s
  {
    seq(|s|, i requires 0 <= i < |s| => s[i] as int as Byte)
  }

  // ---------------------------------------------------------------------
  // text/x-moz-url

  const Newline: CodeUnit := 10

  /** Code unit n of a payload read as 16-bit units (little-endian, the device's byte order). */
  function UnitAt(data: seq<Byte>, n: int): CodeUnit
    requires 0 <= n < |data| / 2
  {
    (data[2 * n] as int + 256 * data[2 * n + 1] as int) as CodeUnit
  }

  /** The payload's |data| / 2 code units. */
  function Units(data: seq<Byte>): (units: seq<CodeUnit>)
    ensures |units| == |data| / 2
    ensures forall n :: 0 <= n < |data| / 2 ==> units[n] == UnitAt(data, n)
  {
    seq(|data| / 2, n requires 0 <= n < |data| / 2 => UnitAt(data, n))
  }

  /**
   * The decoding loop: append code units while fewer than length / 2 are
   * read and the next one is not a newline. The result is the longest
   * newline-free prefix of the units.
   */
  method DecodeMozUrl(data: seq<Byte>) returns (units: seq<CodeUnit>)
    ensures units <= Units(data)
    ensures Newline !in units
    ensures |units| == |data| / 2 || Units(data)[|units|] == Newline
  {
    units := [];
    var n := 0;
    while n < |data| / 2 && UnitAt(data, n) != Newline
      invariant 0 <= n <= |data| / 2
      invariant units == Units(data)[..n]
      invariant Newline !in units
    {
      units := units + [UnitAt(data, n)];
      n := n + 1;
    }
  }

  /** The URL a Mozilla URL payload carries: its code units up to the first newline, as UTF-8. */
  function MozUrlText(data: seq<Byte>, lib: Library): string {
    lib.utf8(TakeUntil(Units(data), Newline))
  }

  /**
   * The local path of the URL up to its first NUL when it converts
   * (reading the URL up to a NUL), else the whole URL.
   */
  function MozUrlInput(data: seq<Byte>, lib: Library): (input: string)
    ensures var url := MozUrlText(data, lib);
            var filename := lib.filenameFromUri(TakeUntil(url, '\0'));
            && (filename.None? ==> input == url)
            && (filename.Some? ==> input <= filename.value && IsCString(input)
                                   && (|input| == |filename.value| || filename.value[|input|] == '\0'))
  {
    var url := MozUrlText(data, lib);
    var filename := lib.filenameFromUri(TakeUntil(url, '\0'));
    if filename.Some? then TakeUntil(filename.value, '\0') else url
  }

  // ---------------------------------------------------------------------
  // text/uri-list

  /** Each entry replaced by its local path where it converts. */
  function ToFilenames(uris: seq<string>, filenameFromUri: string -> Option<string>): (r: seq<string>)
    ensures |r| == |uris|
  {
    seq(|uris|, i requires 0 <= i < |uris| =>
          if filenameFromUri(uris[i]).Some? then filenameFromUri(uris[i]).value else uris[i])
  }

  /** The entries of a URI-list payload: its bytes up to a NUL, split on "\r\n". */
  function UriListEntries(data: seq<Byte>): seq<string> {
    SplitCrlf(ByteString(TakeUntil(data, 0)))
  }

  function UriListInput(data: seq<Byte>, filenameFromUri: string -> Option<string>): string {
    Join(ToFilenames(UriListEntries(data), filenameFromUri), " ")
  }

  /** The loop that replaces each convertible entry of the split vector in place. */
  method ConvertUris(uris: array<string>, filenameFromUri: string -> Option<string>)
    modifies uris
    ensures uris[..] == ToFilenames(old(uris[..]), filenameFromUri)
  {
    for n := 0 to uris.Length
      invariant uris[..n] == ToFilenames(old(uris[..]), filenameFromUri)[..n]
      invariant uris[n..] == old(uris[n..])
    {
      var filename := filenameFromUri(uris[n]);
      if filename.Some? {
        uris[n] := filename.value;
      }
    }
  }

  /** g_strndup, g_strsplit on "\r\n", the conversion loop and g_strjoinv with " ". */
  method DropUriList(data: seq<Byte>, filenameFromUri: string -> Option<string>) returns (text: string)
    ensures text == UriListInput(data, filenameFromUri)
  {
    var entries := UriListEntries(data);
    var uris := new string[|entries|](i requires 0 <= i < |entries| => entries[i]);
    assert uris[..] == entries;
    ConvertUris(uris, filenameFromUri);
    text := Join(uris[..], " ");
  }

  // ---------------------------------------------------------------------
  // The handler

  predicate IsTextTarget(info: Target) {
    info == StringTarget || info == Utf8String || info == CompoundText || info == Text
  }

  /** What a drop of the given target and selection feeds to the child. */
  function Dropped(info: Target, selection: SelectionData, lib: Library): DropOutcome {
    var format, length := selection.format, |selection.data|;
    match info
    case StringTarget | Utf8String | CompoundText | Text =>
      if lib.selectionText.Some? && TakeUntil(lib.selectionText.value, '\0') != "" then
        Feed(TakeUntil(lib.selectionText.value, '\0'))
      else NoInput
    case TextPlain =>
      if format != 8 || length == 0 then WrongFormat(format, length)
      else Feed(ByteString(selection.data))
    case MozUrl =>
      if format != 8 || length == 0 || length % 2 != 0 then WrongFormat(format, length)
      else Feed(MozUrlInput(selection.data, lib))
    case UriList =>
      if format != 8 || length == 0 then WrongFormat(format, length)
      else Feed(TakeUntil(UriListInput(selection.data, lib.filenameFromUri), '\0'))
  }

  /** terminal_widget_vte_drag_data_received. */
  method DragDataReceived(info: Target, selection: SelectionData, lib: Library)
    returns (outcome: DropOutcome)
    ensures outcome == Dropped(info, selection, lib)
  {
    var format, length := selection.format, |selection.data|;
    match info {
      case StringTarget | Utf8String | CompoundText | Text =>
        var text := lib.selectionText;
        outcome := NoInput;
        if text.Some? && TakeUntil(text.value, '\0') != "" {
          outcome := Feed(TakeUntil(text.value, '\0'));
        }
      case TextPlain =>
        if format != 8 || length == 0 {
          outcome := WrongFormat(format, length);
        } else {
          outcome := Feed(ByteString(selection.data));
        }
      case MozUrl =>
        if format != 8 || length == 0 || length % 2 != 0 {
          outcome := WrongFormat(format, length);
        } else {
          var units := DecodeMozUrl(selection.data);
          TakeUntilUnique(Units(selection.data), Newline, units);
          var str := lib.utf8(units);
          var filename := lib.filenameFromUri(TakeUntil(str, '\0'));
          if filename.Some? {
            outcome := Feed(TakeUntil(filename.value, '\0'));
          } else {
            outcome := Feed(str);
          }
        }
      case UriList =>
        if format != 8 || length == 0 {
          outcome := WrongFormat(format, length);
        } else {
          var text := DropUriList(selection.data, lib.filenameFromUri);
          outcome := Feed(TakeUntil(text, '\0'));
        }
    }
  }

  // ---------------------------------------------------------------------
  // Properties

  /**
   * A text/plain, URI-list or Mozilla URL drop is refused with a
   * diagnostic exactly when it is not 8-bit or is empty (or, for a
   * Mozilla URL, of odd length); a text drop is never refused, and feeds
   * only non-empty text.
   */
  lemma DropRefusals(info: Target, selection: SelectionData, lib: Library)
    ensures var outcome := Dropped(info, selection, lib);
            var bad := selection.format != 8 || |selection.data| == 0;
            && (info == TextPlain || info == UriList ==> (outcome.WrongFormat? <==> bad))
            && (info == MozUrl ==> (outcome.WrongFormat? <==> bad || |selection.data| % 2 != 0))
            && (IsTextTarget(info) ==> !outcome.WrongFormat? && (outcome.Feed? ==> outcome.input != ""))
            && (IsTextTarget(info) || info == UriList ==> (outcome.Feed? ==> IsCString(outcome.input)))
            && (outcome.WrongFormat? ==> outcome == WrongFormat(selection.format, |selection.data|))
  {
  }

  lemma ToFilenamesIdentity(uris: seq<string>, filenameFromUri: string -> Option<string>)
    requires forall u :: filenameFromUri(u).None?
    ensures ToFilenames(uris, filenameFromUri) == uris
  {
  }

  /** When no entry converts, a URI list reaches the child with each "\r\n" turned into one space. */
  lemma UriListUnconverted(data: seq<Byte>, filenameFromUri: string -> Option<string>)
    requires forall u :: filenameFromUri(u).None?
    ensures UriListInput(data, filenameFromUri) == CrlfToSpace(ByteString(TakeUntil(data, 0)))
  {
    ToFilenamesIdentity(UriListEntries(data), filenameFromUri);
    SplitCrlfJoinSpace(ByteString(TakeUntil(data, 0)));
  }

  /**
   * A URI list made of "\r\n"-separated entries reaches the child as the
   * converted entries, each on its own, joined with single spaces.
   */
  lemma UriListOfEntries(entries: seq<string>, filenameFromUri: string -> Option<string>)
    requires |entries| >= 1
    requires forall k :: 0 <= k < |entries| ==> NoCrlf(entries[k])
    requires IsCString(Join(entries, Crlf)) && IsByteString(Join(entries, Crlf)) && Join(entries, Crlf) != ""
    ensures UriListInput(Bytes(Join(entries, Crlf)), filenameFromUri)
            == Join(ToFilenames(entries, filenameFromUri), " ")
  {
    var text := Join(entries, Crlf);
    var data := Bytes(text);
    assert 0 !in data by {
      forall i | 0 <= i < |data| ensures data[i] != 0 {
        assert ByteString(data)[i] == text[i] != '\0';
      }
    }
    TakeUntilUnique(data, 0, data);
    JoinPieces(entries);
  }

  /** A converter that, like g_filename_from_uri, turns C strings into C strings. */
  ghost predicate KeepsCStrings(filenameFromUri: string -> Option<string>) {
    forall u :: IsCString(u) && filenameFromUri(u).Some? ==> IsCString(filenameFromUri(u).value)
  }

  /**
   * With such a converter no entry of a URI list holds a NUL, so the
   * strlen of the joined text is all of it: an accepted URI list feeds
   * the whole space-joined list.
   */
  lemma UriListFeedsWholeList(selection: SelectionData, lib: Library)
    requires selection.format == 8 && |selection.data| > 0
    requires KeepsCStrings(lib.filenameFromUri)
    ensures Dropped(UriList, selection, lib) == Feed(UriListInput(selection.data, lib.filenameFromUri))
  {
    var text := ByteString(TakeUntil(selection.data, 0));
    assert IsCString(text) by {
      forall i | 0 <= i < |text| ensures text[i] != '\0' {
        assert TakeUntil(selection.data, 0)[i] != 0;
      }
    }
    var entries := SplitCrlf(text);
    if text != "" {
      PiecesCString(text);
    }
    var converted := ToFilenames(entries, lib.filenameFromUri);
    forall k | 0 <= k < |converted| ensures IsCString(converted[k]) {
      assert IsCString(entries[k]);
    }
    JoinCString(converted, " ");
    var joined := UriListInput(selection.data, lib.filenameFromUri);
    TakeUntilUnique(joined, '\0', joined);
  }

  /** A stand-in for g_filename_from_uri that converts exactly the "file://" URIs. */
  function FileUri(u: string): (path: Option<string>)
    ensures path.Some? <==> StartsWith(u, "file://")
    ensures path.Some? ==> "file://" + path.value == u
  {
    if StartsWith(u, "file://") then Some(u[7..]) else None
  }

  /** Two dropped file URIs reach the child as their two paths, separated by one space. */
  lemma UriListOfFileUris(p: string, q: string)
    requires IsCString(p) && IsByteString(p) && IsCString(q) && IsByteString(q)
    requires '\r' !in p && '\r' !in q
    ensures UriListInput(Bytes(("file://" + p) + Crlf + ("file://" + q)), FileUri) == p + " " + q
  {
    var a, b := "file://" + p, "file://" + q;
    PlainEntry(a);
    PlainEntry(b);
    var entries := [a, b];
    assert entries[1..] == [b];
    assert Join(entries, Crlf) == a + Crlf + b;
    PlainPair(a, b);
    UriListOfEntries(entries, FileUri);
    assert a[..7] == "file://" && a[7..] == p;
    assert b[..7] == "file://" && b[7..] == q;
    assert FileUri(a) == Some(p) && FileUri(b) == Some(q);
    assert ToFilenames(entries, FileUri) == [p, q];
    assert [q][1..] == [];
  }

  /** The "file://" converter turns C strings into C strings. */
  lemma FileUriKeepsCStrings()
    ensures KeepsCStrings(FileUri)
  {
    forall u | IsCString(u) && FileUri(u).Some? ensures IsCString(FileUri(u).value) {
      assert FileUri(u).value == u[7..];
    }
  }

  /** An 8-bit drop of two file URIs feeds their two paths, separated by one space. */
  lemma FileUrisDropped(p: string, q: string, selectionText: Option<string>, utf8: seq<CodeUnit> -> string)
    requires IsCString(p) && IsByteString(p) && IsCString(q) && IsByteString(q)
    requires '\r' !in p && '\r' !in q
    ensures var text := ("file://" + p) + Crlf + ("file://" + q);
            && IsByteString(text)
            && Dropped(UriList, SelectionData(8, Bytes(text)), Library(selectionText, FileUri, utf8))
               == Feed(p + " " + q)
  {
    var text := ("file://" + p) + Crlf + ("file://" + q);
    PlainPair("file://" + p, "file://" + q);
    UriListOfFileUris(p, q);
    FileUriKeepsCStrings();
    var data := Bytes(text);
    assert |data| == |ByteString(data)| == |text| > 0;
    UriListFeedsWholeList(SelectionData(8, data), Library(selectionText, FileUri, utf8));
  }

  /**
   * The example of a two-file drop: dropping the 8-bit URI list
   * "file:///tmp/a.txt\r\nfile:///tmp/b.txt" feeds "/tmp/a.txt /tmp/b.txt".
   */
  lemma UriListExample(selectionText: Option<string>, utf8: seq<CodeUnit> -> string)
    ensures var text := ("file://" + "/tmp/a.txt") + Crlf + ("file://" + "/tmp/b.txt");
            && IsByteString(text)
            && Dropped(UriList, SelectionData(8, Bytes(text)), Library(selectionText, FileUri, utf8))
               == Feed("/tmp/a.txt /tmp/b.txt")
  {
    ExamplePaths();
    FileUrisDropped("/tmp/a.txt", "/tmp/b.txt", selectionText, utf8);
  }

  lemma ExamplePaths()
    ensures IsCString("/tmp/a.txt") && IsByteString("/tmp/a.txt") && '\r' !in "/tmp/a.txt"
    ensures IsCString("/tmp/b.txt") && IsByteString("/tmp/b.txt") && '\r' !in "/tmp/b.txt"
  {
  }

  /** A string without carriage returns holds no "\r\n". */
  lemma PlainEntry(s: string)
    requires '\r' !in s
    ensures NoCrlf(s)
  {
  }

  lemma PlainPair(a: string, b: string)
    requires IsCString(a) && IsByteString(a) && IsCString(b) && IsByteString(b)
    ensures IsCString(a + Crlf + b) && IsByteString(a + Crlf + b) && a + Crlf + b != ""
  {
  }

  /** A Mozilla URL payload is read only up to its first newline unit. */
  lemma MozUrlStopsAtNewline(data: seq<Byte>, more: seq<Byte>, lib: Library)
    requires |data| % 2 == 0
    requires |more| >= 2 && more[0] == 10 && more[1] == 0
    ensures MozUrlText(data + more, lib) == lib.utf8(TakeUntil(Units(data), Newline))
  {
    var all := data + more;
    var k := |data| / 2;
    assert UnitAt(all, k) == Newline;
    assert Units(all)[..k] == Units(data);
    var prefix := TakeUntil(Units(data), Newline);
    if |prefix| == |Units(data)| {
      assert prefix == Units(all)[..k];
      TakeUntilUnique(Units(all), Newline, prefix);
    } else {
      TakeUntilUnique(Units(all), Newline, prefix);
    }
  }
}
