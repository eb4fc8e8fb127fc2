/**
 * Models of the C library and GLib string helpers that the terminal's
 * core relies on: NUL-terminated reads, strncmp prefix tests,
 * g_ascii_strcasecmp, g_strsplit on "\r\n", g_strjoinv, the strrchr
 * basename idiom and "%ld" formatting.
 *
 * A C string is modelled as a Dafny `string` whose characters stand for
 * its bytes; a C string never holds the NUL character.
 */
module GLibStrings {

  datatype Option<T> = None | Some(value: T)

  /** A GError-style result: a value, or the message of the error. */
  datatype Result<T> = Ok(value: T) | Err(message: string)

  /** The characters of a C string: no NUL inside. */
  predicate IsCString(s: string) {
    forall i :: 0 <= i < |s| ==> s[i] != '\0'
  }

  /** `strncmp(s, prefix, |prefix|) == 0` for a C string `s`. */
  predicate StartsWith(s: string, prefix: string) {
    |prefix| <= |s| && s[..|prefix|] == prefix
  }

  /**
   * The elements of `s` before the first `stop` (all of `s` if there is
   * none): what a reader of a terminated buffer sees.
   */
  function TakeUntil<T(==)>(s: seq<T>, stop: T): (r: seq<T>)
    ensures r <= s
    ensures stop !in r
    ensures |r| == |s| || s[|r|] == stop
  {
    if s == [] || s[0] == stop then [] else [s[0]] + TakeUntil(s[1..], stop)
  }

  /** The three properties of TakeUntil determine its result. */
  lemma {:induction false} TakeUntilUnique<T>(s: seq<T>, stop: T, r: seq<T>)
    requires r <= s && stop !in r
    requires |r| == |s| || s[|r|] == stop
    ensures r == TakeUntil(s, stop)
  {
    if s != [] && s[0] != stop {
      assert r != [];
      assert r[0] == s[0];
      TakeUntilUnique(s[1..], stop, r[1..]);
    }
  }

  /** A terminator at index k ends the read there. */
  lemma TakeUntilAt<T>(s: seq<T>, stop: T, k: nat)
    requires k < |s| && s[k] == stop && stop !in s[..k]
    ensures TakeUntil(s, stop) == s[..k]
  {
    TakeUntilUnique(s, stop, s[..k]);
  }

  // ---------------------------------------------------------------------
  // g_ascii_strcasecmp

  function AsciiToLower(c: char): (l: char)
    ensures 'A' <= c <= 'Z' ==> l as int == c as int + 32
    ensures !('A' <= c <= 'Z') ==> l == c
  {
    if 'A' <= c <= 'Z' then (c as int + 32) as char else c
  }

  /** The string with every ASCII capital letter lowered. */
  function AsciiDown(s: string): (r: string)
    ensures |r| == |s|
    ensures forall i :: 0 <= i < |s| ==> r[i] == AsciiToLower(s[i])
  {
    seq(|s|, i requires 0 <= i < |s| => AsciiToLower(s[i]))
  }

  /** The byte at the head of a C string, 0 at its terminator. */
  function HeadByte(s: string): int {
    if s == [] then 0 else s[0] as int
  }

  /**
   * g_ascii_strcasecmp: walk both strings while neither has ended,
   * return the difference of the first pair of lowered characters that
   * differ, or, once one string has ended, the difference of the two
   * current (unlowered) bytes.
   */
  function AsciiStrcasecmp(s1: string, s2: string): (r: int)
    ensures AsciiDown(s1) == AsciiDown(s2) ==> r == 0
  {
    if s1 == [] || s2 == [] then HeadByte(s1) - HeadByte(s2)
    else if AsciiToLower(s1[0]) != AsciiToLower(s2[0]) then
      AsciiToLower(s1[0]) as int - AsciiToLower(s2[0]) as int
    else AsciiStrcasecmp(s1[1..], s2[1..])
  }

  /** On C strings, g_ascii_strcasecmp reports 0 exactly when the strings agree up to ASCII case. */
  lemma {:induction false} AsciiStrcasecmpZeroIff(s1: string, s2: string)
    requires IsCString(s1) && IsCString(s2)
    ensures AsciiStrcasecmp(s1, s2) == 0 <==> AsciiDown(s1) == AsciiDown(s2)
  {
    if s1 == [] || s2 == [] {
      if s1 != [] { assert s1[0] != '\0'; }
      if s2 != [] { assert s2[0] != '\0'; }
    } else {
      AsciiStrcasecmpZeroIff(s1[1..], s2[1..]);
      assert AsciiDown(s1) == [AsciiToLower(s1[0])] + AsciiDown(s1[1..]);
      assert AsciiDown(s2) == [AsciiToLower(s2[0])] + AsciiDown(s2[1..]);
    }
  }

  /** Strings equal up to ASCII case have the same length. */
  lemma AsciiCaseEqualLength(s1: string, s2: string)
    requires IsCString(s1) && IsCString(s2) && AsciiStrcasecmp(s1, s2) == 0
    ensures |s1| == |s2|
  {
    AsciiStrcasecmpZeroIff(s1, s2);
    assert |AsciiDown(s1)| == |AsciiDown(s2)|;
  }

  // ---------------------------------------------------------------------
  // g_strsplit (s, "\r\n", 0) and g_strjoinv

  const Crlf := "\r\n"

  predicate CrlfAt(s: string, i: int) {
    0 <= i && i + 1 < |s| && s[i] == '\r' && s[i + 1] == '\n'
  }

  /** No "\r\n" occurs in s. */
  predicate NoCrlf(s: string) {
    forall i :: 0 <= i < |s| ==> !CrlfAt(s, i)
  }

  /**
   * The pieces of s between occurrences of "\r\n", scanned from the left;
   * there is always at least one piece.
   */
  function Pieces(s: string): (parts: seq<string>)
    ensures |parts| >= 1
  {
    if |s| < 2 then [s]
    else if CrlfAt(s, 0) then [""] + Pieces(s[2..])
    else
      var rest := Pieces(s[1..]);
      [[s[0]] + rest[0]] + rest[1..]
  }

  /**
   * g_strsplit (s, "\r\n", 0): the empty string splits into the empty
   * vector; any other string into "\r\n"-free pieces that join back to it.
   */
  function SplitCrlf(s: string): (parts: seq<string>)
    ensures parts == [] <==> s == ""
    ensures forall k :: 0 <= k < |parts| ==> NoCrlf(parts[k])
    ensures Join(parts, Crlf) == s
  {
    if s == "" then []
    else
      PiecesJoin(s);
      PiecesNoCrlf(s);
      Pieces(s)
  }

  /** The leftmost "\r\n" separates the first piece; the rest is split again after it. */
  lemma PiecesAtFirstCrlf(s: string, i: nat)
    requires CrlfAt(s, i)
    requires forall j :: 0 <= j < i ==> !CrlfAt(s, j)
    ensures Pieces(s) == [s[..i]] + Pieces(s[i + 2..])
  {
    assert NoCrlf(s[..i]) by {
      forall j | 0 <= j < i ensures !CrlfAt(s[..i], j) {
        assert !CrlfAt(s, j);
      }
    }
    assert s == s[..i] + Crlf + s[i + 2..];
    PiecesAfterPiece(s[..i], s[i + 2..]);
  }

  /** g_strjoinv (sep, parts): the first part starts the result. */
  function Join(parts: seq<string>, sep: string): (r: string)
    ensures |parts| >= 1 ==> parts[0] <= r
  {
    if parts == [] then ""
    else if |parts| == 1 then parts[0]
    else parts[0] + sep + Join(parts[1..], sep)
  }

  lemma JoinPrepend(x: string, parts: seq<string>, sep: string)
    requires |parts| >= 1
    ensures Join([x + parts[0]] + parts[1..], sep) == x + Join(parts, sep)
  {
    var p := [x + parts[0]] + parts[1..];
    assert p[1..] == parts[1..];
  }

  /** Joining the pieces back with "\r\n" gives the string that was split. */
  lemma {:induction false} PiecesJoin(s: string)
    ensures Join(Pieces(s), Crlf) == s
  {
    if |s| < 2 {
    } else if CrlfAt(s, 0) {
      PiecesJoin(s[2..]);
      var p := [""] + Pieces(s[2..]);
      assert p[1..] == Pieces(s[2..]);
      assert s == Crlf + s[2..];
    } else {
      PiecesJoin(s[1..]);
      JoinPrepend([s[0]], Pieces(s[1..]), Crlf);
      assert s == [s[0]] + s[1..];
    }
  }

  /** Split followed by join with "\r\n" is the identity. */
  lemma SplitCrlfJoin(s: string)
    ensures Join(SplitCrlf(s), Crlf) == s
  {
    if s != "" { PiecesJoin(s); }
  }

  /** The first piece is a prefix of the string. */
  lemma {:induction false} FirstPiecePrefix(s: string)
    ensures Pieces(s)[0] <= s
  {
    if |s| >= 2 && !CrlfAt(s, 0) {
      FirstPiecePrefix(s[1..]);
    }
  }

  /** No piece holds a "\r\n". */
  lemma {:induction false} PiecesNoCrlf(s: string)
    ensures forall k :: 0 <= k < |Pieces(s)| ==> NoCrlf(Pieces(s)[k])
  {
    if |s| < 2 {
    } else if CrlfAt(s, 0) {
      PiecesNoCrlf(s[2..]);
      var p := [""] + Pieces(s[2..]);
      forall k | 0 <= k < |p| ensures NoCrlf(p[k]) {
        if k > 0 { assert p[k] == Pieces(s[2..])[k - 1]; }
      }
    } else {
      var rest := Pieces(s[1..]);
      PiecesNoCrlf(s[1..]);
      FirstPiecePrefix(s[1..]);
      var head := [s[0]] + rest[0];
      assert NoCrlf(head) by {
        forall i | 0 <= i < |head| ensures !CrlfAt(head, i) {
          if i > 0 {
            assert NoCrlf(rest[0]);
            assert !CrlfAt(rest[0], i - 1);
          } else if |rest[0]| > 0 {
            assert head[1] == rest[0][0] == s[1];
          }
        }
      }
      var p := [head] + rest[1..];
      forall k | 0 <= k < |p| ensures NoCrlf(p[k]) {
        if k > 0 { assert p[k] == rest[k]; }
      }
    }
  }

  /** A "\r\n"-free piece in front of a separator splits off whole. */
  lemma {:induction false} PiecesAfterPiece(a: string, b: string)
    requires NoCrlf(a)
    ensures Pieces(a + Crlf + b) == [a] + Pieces(b)
  {
    var s := a + Crlf + b;
    if a == [] {
      assert s == Crlf + b;
      assert CrlfAt(s, 0);
      assert s[2..] == b;
    } else {
      assert !CrlfAt(s, 0) by {
        if |a| >= 2 { assert !CrlfAt(a, 0); }
      }
      assert NoCrlf(a[1..]) by {
        forall i | 0 <= i < |a[1..]| ensures !CrlfAt(a[1..], i) {
          assert !CrlfAt(a, i + 1);
        }
      }
      assert s[1..] == a[1..] + Crlf + b;
      PiecesAfterPiece(a[1..], b);
      assert [s[0]] + a[1..] == a;
    }
  }

  /** Splitting a "\r\n"-joined vector of "\r\n"-free pieces gives the vector back. */
  lemma {:induction false} JoinPieces(parts: seq<string>)
    requires |parts| >= 1
    requires forall k :: 0 <= k < |parts| ==> NoCrlf(parts[k])
    ensures Pieces(Join(parts, Crlf)) == parts
  {
    if |parts| == 1 {
      var s := parts[0];
      NoCrlfPieces(s);
    } else {
      JoinPieces(parts[1..]);
      PiecesAfterPiece(parts[0], Join(parts[1..], Crlf));
    }
  }

  /** A "\r\n"-free string is one piece. */
  lemma {:induction false} NoCrlfPieces(s: string)
    requires NoCrlf(s)
    ensures Pieces(s) == [s]
  {
    if |s| >= 2 {
      assert !CrlfAt(s, 0);
      assert NoCrlf(s[1..]) by {
        forall i | 0 <= i < |s[1..]| ensures !CrlfAt(s[1..], i) {
          assert !CrlfAt(s, i + 1);
        }
      }
      NoCrlfPieces(s[1..]);
      assert [s[0]] + s[1..] == s;
    }
  }

  /** The pieces of a C string are C strings. */
  lemma {:induction false} PiecesCString(s: string)
    requires IsCString(s)
    ensures forall k :: 0 <= k < |Pieces(s)| ==> IsCString(Pieces(s)[k])
  {
    if |s| < 2 {
    } else if CrlfAt(s, 0) {
      PiecesCString(s[2..]);
      var p := [""] + Pieces(s[2..]);
      forall k | 0 <= k < |p| ensures IsCString(p[k]) {
        if k > 0 { assert p[k] == Pieces(s[2..])[k - 1]; }
      }
    } else {
      var rest := Pieces(s[1..]);
      PiecesCString(s[1..]);
      var head := [s[0]] + rest[0];
      assert IsCString(rest[0]);
      var p := [head] + rest[1..];
      forall k | 0 <= k < |p| ensures IsCString(p[k]) {
        if k > 0 { assert p[k] == rest[k]; }
      }
    }
  }

  /** Joining C strings with a C-string separator gives a C string. */
  lemma {:induction false} JoinCString(parts: seq<string>, sep: string)
    requires IsCString(sep)
    requires forall k :: 0 <= k < |parts| ==> IsCString(parts[k])
    ensures IsCString(Join(parts, sep))
  {
    if |parts| > 1 {
      JoinCString(parts[1..], sep);
      assert IsCString(parts[0]);
    }
  }

  /** The string with every "\r\n" replaced by one space, scanned from the left. */
  function CrlfToSpace(s: string): (r: string)
    ensures |r| <= |s|
  {
    if |s| < 2 then s
    else if CrlfAt(s, 0) then " " + CrlfToSpace(s[2..])
    else [s[0]] + CrlfToSpace(s[1..])
  }

  /** Joining the pieces with single spaces replaces each "\r\n" by a space. */
  lemma {:induction false} PiecesJoinSpace(s: string)
    ensures Join(Pieces(s), " ") == CrlfToSpace(s)
  {
    if |s| < 2 {
    } else if CrlfAt(s, 0) {
      PiecesJoinSpace(s[2..]);
      var p := [""] + Pieces(s[2..]);
      assert p[1..] == Pieces(s[2..]);
    } else {
      PiecesJoinSpace(s[1..]);
      JoinPrepend([s[0]], Pieces(s[1..]), " ");
    }
  }

  lemma SplitCrlfJoinSpace(s: string)
    ensures Join(SplitCrlf(s), " ") == CrlfToSpace(s)
  {
    if s != "" { PiecesJoinSpace(s); }
  }

  // ---------------------------------------------------------------------
  // strrchr (path, '/') + 1

  /**
   * The text after the last '/' of path, or the whole path when it has no
   * '/': the longest suffix of path free of '/'.
   */
  function ShellName(path: string): (name: string)
    ensures |name| <= |path| && name == path[|path| - |name|..]
    ensures '/' !in name
    ensures |name| == |path| || path[|path| - |name| - 1] == '/'
  {
    path[NameStart(path, |path|)..]
  }

  /** Scanning back from k over '/'-free characters: where the name starts. */
  function NameStart(path: string, k: nat): (start: nat)
    requires k <= |path|
    requires forall i :: k <= i < |path| ==> path[i] != '/'
    ensures start <= k
    ensures forall i :: start <= i < |path| ==> path[i] != '/'
    ensures start == 0 || path[start - 1] == '/'
  {
    if k == 0 || path[k - 1] == '/' then k else NameStart(path, k - 1)
  }

  // ---------------------------------------------------------------------
  // "%ld" for a non-negative value

  predicate IsDigit(c: char) { '0' <= c <= '9' }

  function DigitChar(d: nat): (c: char)
    requires d < 10
    ensures IsDigit(c) && c as int - '0' as int == d
  {
    ('0' as int + d) as char
  }

  /** Digits without a leading zero, as "%ld" writes them. */
  predicate IsCanonicalDecimal(s: string) {
    && |s| >= 1
    && (forall i :: 0 <= i < |s| ==> IsDigit(s[i]))
    && (|s| == 1 || s[0] != '0')
  }

  /** The decimal digits of n, most significant first. */
  function Decimal(n: nat): (s: string)
    ensures IsCanonicalDecimal(s)
  {
    if n < 10 then [DigitChar(n)]
    else
      var high := Decimal(n / 10);
      assert (high + [DigitChar(n % 10)])[0] == high[0];
      high + [DigitChar(n % 10)]
  }

  /** The value of a string of decimal digits. */
  function DecimalValue(s: string): nat
    requires forall i :: 0 <= i < |s| ==> IsDigit(s[i])
  {
    if s == [] then 0
    else
      assert IsDigit(s[|s| - 1]);
      DecimalValue(s[..|s| - 1]) * 10 + (s[|s| - 1] as int - '0' as int)
  }

  /** Reading back the digits gives the number. */
  lemma {:induction false} DecimalRoundTrip(n: nat)
    ensures DecimalValue(Decimal(n)) == n
  {
    if n >= 10 {
      DecimalRoundTrip(n / 10);
      var s := Decimal(n);
      assert s[..|s| - 1] == Decimal(n / 10);
    }
  }

  /** A multi-digit string without a leading zero is worth at least 10. */
  lemma {:induction false} LeadingDigitValue(s: string)
    requires IsCanonicalDecimal(s) && |s| >= 2
    ensures DecimalValue(s) >= 10
  {
    var init := s[..|s| - 1];
    assert init[0] == s[0];
    if |init| >= 2 {
      LeadingDigitValue(init);
    } else {
      assert init == [s[0]];
      assert DecimalValue(init) == s[0] as int - '0' as int;
    }
  }

  /** "%ld" has exactly one spelling: the canonical digits worth n are Decimal(n). */
  lemma {:induction false} DecimalUnique(s: string, n: nat)
    requires IsCanonicalDecimal(s) && DecimalValue(s) == n
    ensures s == Decimal(n)
  {
    if |s| == 1 {
      assert s[..0] == [];
      assert n == s[0] as int - '0' as int;
    } else {
      LeadingDigitValue(s);
      var init := s[..|s| - 1];
      assert init[0] == s[0];
      assert IsCanonicalDecimal(init);
      DecimalUnique(init, DecimalValue(init));
      assert s == init + [s[|s| - 1]];
    }
  }
}
