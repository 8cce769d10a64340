/** Check lines: a hash and a path printed on one line, in two layouts, and read back. */
module CheckLines {
  import opened Encoding
  import opened Pieces
  import opened Options

  type Hash = s: seq<U8> | |s| == 32 witness seq(32, _ => 0)

  // ---- Escaping ----

  /** The string with every `c` replaced by `to`. */
  function Replace(s: string, c: char, to: string): string {
    if |s| == 0 then []
    else (if s[0] == c then to else [s[0]]) + Replace(s[1..], c, to)
  }

  predicate NeedsEscape(path: string) {
    '\\' in path || '\n' in path || '\r' in path
  }

  /** The three replacements, one after another. */
  function Escape(path: string): string {
    Replace(Replace(Replace(path, '\\', "\\\\"), '\n', "\\n"), '\r', "\\r")
  }

  /** What one character becomes. */
  function EscapeChar(c: char): string {
    if c == '\\' then "\\\\" else if c == '\n' then "\\n" else if c == '\r' then "\\r" else [c]
  }

  function Unescape(s: string): Option<string> {
    if |s| == 0 then Some([])
    else if s[0] != '\\' then Prefixed([s[0]], Unescape(s[1..]))
    else if |s| == 1 then None
    else if s[1] == 'n' then Prefixed("\n", Unescape(s[2..]))
    else if s[1] == 'r' then Prefixed("\r", Unescape(s[2..]))
    else if s[1] == '\\' then Prefixed("\\", Unescape(s[2..]))
    else None
  }

  function Prefixed(s: string, rest: Option<string>): Option<string> {
    if rest.Some? then Some(s + rest.value) else None
  }

  lemma {:induction false} ReplaceConcat(a: string, b: string, c: char, to: string)
    ensures Replace(a + b, c, to) == Replace(a, c, to) + Replace(b, c, to)
  {
    if |a| == 0 {
      assert a + b == b;
    } else {
      assert (a + b)[1..] == a[1..] + b;
      ReplaceConcat(a[1..], b, c, to);
    }
  }

  lemma ReplaceOne(x: char, c: char, to: string)
    ensures Replace([x], c, to) == if x == c then to else [x]
  {
    assert [x][1..] == [];
    assert Replace([], c, to) == [];
    assert to + [] == to;
  }

  lemma ReplaceTwo(x: char, y: char, c: char, to: string)
    requires x != c && y != c
    ensures Replace([x, y], c, to) == [x, y]
  {
    ReplaceOne(x, c, to);
    ReplaceOne(y, c, to);
    ReplaceConcat([x], [y], c, to);
    assert [x] + [y] == [x, y];
  }

  lemma EscapeOne(x: char)
    ensures Escape([x]) == EscapeChar(x)
  {
    hide Replace;
    ReplaceOne(x, '\\', "\\\\");
    ReplaceOne(x, '\n', "\\n");
    ReplaceOne(x, '\r', "\\r");
    ReplaceTwo('\\', '\\', '\n', "\\n");
    ReplaceTwo('\\', '\\', '\r', "\\r");
    ReplaceTwo('\\', 'n', '\r', "\\r");
  }

  /** The three passes amount to one: no pass touches what an earlier one put in. */
  lemma EscapeStep(path: string)
    requires |path| > 0
    ensures Escape(path) == EscapeChar(path[0]) + Escape(path[1..])
  {
    hide Replace;
    var x, rest := [path[0]], path[1..];
    assert path == x + rest;
    ReplaceConcat(x, rest, '\\', "\\\\");
    var a, b := Replace(x, '\\', "\\\\"), Replace(rest, '\\', "\\\\");
    ReplaceConcat(a, b, '\n', "\\n");
    ReplaceConcat(Replace(a, '\n', "\\n"), Replace(b, '\n', "\\n"), '\r', "\\r");
    EscapeOne(path[0]);
  }

  lemma EscapeNothing()
    ensures Escape([]) == []
  {}

  lemma UnescapeChar(x: char, rest: string)
    ensures Unescape(EscapeChar(x) + rest) == Prefixed([x], Unescape(rest))
  {
    var s := EscapeChar(x) + rest;
    assert s[0] == EscapeChar(x)[0];
    if |EscapeChar(x)| == 2 {
      assert s[1] == EscapeChar(x)[1] && s[2..] == rest;
    } else {
      assert s[1..] == rest;
    }
  }

  lemma {:induction false} EscapeRoundTrip(path: string)
    ensures Unescape(Escape(path)) == Some(path)
  {
    hide Escape, Unescape, EscapeChar;
    if |path| == 0 {
      EscapeNothing();
      UnescapeNothing();
    } else {
      EscapeStep(path);
      EscapeRoundTrip(path[1..]);
      UnescapeChar(path[0], Escape(path[1..]));
      assert [path[0]] + path[1..] == path;
    }
  }

  lemma UnescapeNothing()
    ensures Unescape([]) == Some([])
  {}

  predicate DoubleSpace(s: string) {
    exists i :: 0 <= i < |s| - 1 && s[i] == ' ' && s[i + 1] == ' '
  }

  lemma DoubleSpaceFirst(s: string)
    requires |s| > 0
    ensures DoubleSpace(s) <==> (|s| > 1 && s[0] == ' ' && s[1] == ' ') || DoubleSpace(s[1..])
  {
    if DoubleSpace(s) {
      var i :| 0 <= i < |s| - 1 && s[i] == ' ' && s[i + 1] == ' ';
      if i > 0 { assert s[1..][i - 1] == ' ' && s[1..][i - 1 + 1] == ' '; }
    }
    if DoubleSpace(s[1..]) {
      var i :| 0 <= i < |s[1..]| - 1 && s[1..][i] == ' ' && s[1..][i + 1] == ' ';
      assert s[i + 1] == ' ' && s[i + 1 + 1] == ' ';
    }
  }

  /** Escaping neither makes nor breaks a pair of spaces, and leaves no line break. */
  lemma {:induction false} EscapeShape(path: string)
    ensures '\n' !in Escape(path) && '\r' !in Escape(path)
    ensures |Escape(path)| == 0 <==> |path| == 0
    ensures |path| > 0 ==> (Escape(path)[0] == ' ' <==> path[0] == ' ')
    ensures DoubleSpace(Escape(path)) <==> DoubleSpace(path)
  {
    hide Escape;
    if |path| == 0 {
      EscapeNothing();
    } else {
      var rest := path[1..];
      EscapeShape(rest);
      EscapeStep(path);
      var e, s := EscapeChar(path[0]), Escape(path);
      assert s == e + Escape(rest);
      DoubleSpaceFirst(path);
      DoubleSpaceFirst(s);
      if |e| == 2 {
        assert s[1..] == [e[1]] + Escape(rest);
        DoubleSpaceFirst(s[1..]);
        assert s[1..][1..] == Escape(rest);
      } else {
        assert s[1..] == Escape(rest);
      }
    }
  }

  // ---- Hexadecimal ----

  function HexDigit(n: nat): char
    requires n < 16
  {
    "0123456789abcdef"[n]
  }

  function Hex(bytes: seq<U8>): (s: string)
    ensures |s| == 2 * |bytes|
  {
    if |bytes| == 0 then []
    else Hex(bytes[..|bytes| - 1]) + [HexDigit(bytes[|bytes| - 1] / 16), HexDigit(bytes[|bytes| - 1] % 16)]
  }

  /** The value of a lower-case hexadecimal digit. */
  function HexHalfByte(c: char): Option<nat> {
    if '0' <= c <= '9' then Some(c as nat - '0' as nat)
    else if 'a' <= c <= 'f' then Some(c as nat - 'a' as nat + 10)
    else None
  }

  predicate IsHex(s: string) {
    forall i :: 0 <= i < |s| ==> HexHalfByte(s[i]).Some?
  }

  function ByteOf(high: char, low: char): (b: U8)
    requires HexHalfByte(high).Some? && HexHalfByte(low).Some?
  {
    16 * HexHalfByte(high).value + HexHalfByte(low).value
  }

  /** The bytes that pairs of digits spell. */
  function OfHex(s: string): (bytes: seq<U8>)
    requires IsHex(s) && |s| % 2 == 0
    ensures |bytes| == |s| / 2
    ensures forall i :: 0 <= i < |bytes| ==> bytes[i] == ByteOf(s[2 * i], s[2 * i + 1])
  {
    seq(|s| / 2, i requires 0 <= i < |s| / 2 => ByteOf(s[2 * i], s[2 * i + 1]))
  }

  lemma HexDigitBack(n: nat)
    requires n < 16
    ensures HexHalfByte(HexDigit(n)) == Some(n)
    ensures HexDigit(n) !in " ()=\\\r\nBLAKE"
  {}

  lemma HexByteBack(b: U8)
    ensures HexHalfByte(HexDigit(b / 16)).Some? && HexHalfByte(HexDigit(b % 16)).Some?
    ensures ByteOf(HexDigit(b / 16), HexDigit(b % 16)) == b
  {
    HexDigitBack(b / 16);
    HexDigitBack(b % 16);
  }

  lemma {:induction false} HexAt(bytes: seq<U8>, i: nat)
    requires i < |bytes|
    ensures Hex(bytes)[2 * i] == HexDigit(bytes[i] / 16) && Hex(bytes)[2 * i + 1] == HexDigit(bytes[i] % 16)
    decreases |bytes|
  {
    hide HexDigit;
    if i < |bytes| - 1 { HexAt(bytes[..|bytes| - 1], i); }
  }

  lemma {:induction false} HexShape(bytes: seq<U8>)
    ensures IsHex(Hex(bytes))
    ensures forall c :: c in " ()=\\\r\nBLAKE" ==> c !in Hex(bytes)
  {
    hide HexDigit, HexHalfByte;
    if |bytes| > 0 {
      HexShape(bytes[..|bytes| - 1]);
      HexDigitBack(bytes[|bytes| - 1] / 16);
      HexDigitBack(bytes[|bytes| - 1] % 16);
    }
  }

  lemma HexRoundTrip(bytes: seq<U8>)
    ensures IsHex(Hex(bytes)) && OfHex(Hex(bytes)) == bytes
  {
    hide HexDigit, HexHalfByte, Hex, ByteOf;
    HexShape(bytes);
    var back := OfHex(Hex(bytes));
    forall i | 0 <= i < |bytes| ensures back[i] == bytes[i] {
      HexAt(bytes, i);
      HexByteBack(bytes[i]);
    }
  }

  // ---- Splitting ----

  predicate At(s: string, sep: string, k: nat) {
    k + |sep| <= |s| && s[k..k + |sep|] == sep
  }

  /** Where the separator first occurs. */
  function First(s: string, sep: string): (k: Option<nat>)
    requires |sep| > 0
    ensures k.Some? ==> At(s, sep, k.value) && forall j: nat :: j < k.value ==> !At(s, sep, j)
    ensures k.None? ==> forall j: nat :: !At(s, sep, j)
  {
    if |s| < |sep| then None
    else if s[..|sep|] == sep then Some(0)
    else
      var k := First(s[1..], sep);
      FirstStep(s, sep);
      if k.Some? then Some(k.value + 1) else None
  }

  lemma FirstStep(s: string, sep: string)
    requires |sep| > 0 && |s| >= |sep|
    ensures forall j: nat :: j > 0 ==> (At(s, sep, j) <==> At(s[1..], sep, j - 1))
  {
    forall j: nat
      ensures j > 0 ==> (At(s, sep, j) <==> At(s[1..], sep, j - 1))
    {
      if j > 0 && j + |sep| <= |s| { SliceOfRest(s, 1, j - 1, j - 1 + |sep|); }
    }
  }

  /** Where the separator last occurs. */
  function Last(s: string, sep: string): (k: Option<nat>)
    requires |sep| > 0
    ensures k.Some? ==> At(s, sep, k.value) && forall j: nat :: j > k.value ==> !At(s, sep, j)
    ensures k.None? ==> forall j: nat :: !At(s, sep, j)
  {
    if |s| < |sep| then None
    else if s[|s| - |sep|..] == sep then
      assert s[|s| - |sep|..|s|] == s[|s| - |sep|..];
      Some(|s| - |sep|)
    else
      LastStep(s, sep);
      Last(s[..|s| - 1], sep)
  }

  lemma LastStep(s: string, sep: string)
    requires |sep| > 0 && |s| >= |sep| && s[|s| - |sep|..] != sep
    ensures forall j: nat :: At(s, sep, j) <==> At(s[..|s| - 1], sep, j)
  {
    var t := s[..|s| - 1];
    forall j: nat | j + |sep| <= |s|
      ensures At(s, sep, j) <==> At(t, sep, j)
    {
      if j + |sep| == |s| {
        assert s[j..j + |sep|] == s[|s| - |sep|..];
      } else {
        assert s[j..j + |sep|] == t[j..j + |sep|];
      }
    }
  }

  function TrimEnd(line: string): string {
    if |line| > 0 && line[|line| - 1] in "\r\n" then TrimEnd(line[..|line| - 1]) else line
  }

  // ---- Lines ----

  datatype Parsed =
    | Parsed(fileString: string, isEscaped: bool, path: string, expected: Hash)
    | Malformed

  const TagStart: string := "BLAKE3 ("
  const TagEnd: string := ") = "

  /** The path as printed, and the mark that says it was escaped. */
  function PathText(path: string): string {
    if NeedsEscape(path) then Escape(path) else path
  }

  function Mark(path: string): string {
    if NeedsEscape(path) then "\\" else ""
  }

  function UntaggedLine(path: string, hash: Hash): string {
    Mark(path) + Hex(hash) + "  " + PathText(path) + "\n"
  }

  function TaggedLine(path: string, hash: Hash): string {
    Mark(path) + TagStart + PathText(path) + TagEnd + Hex(hash) + "\n"
  }

  /** The hash text and the path text of a line, if it has one of the two layouts. */
  function SplitLine(line: string): Option<(string, string)> {
    var two := First(line, "  ");
    if two.Some? then Some((line[..two.value], line[two.value + 2..]))
    else if !At(line, TagStart, 0) then None
    else
      var rest := line[|TagStart|..];
      var end := Last(rest, TagEnd);
      if end.Some? then Some((rest[end.value + |TagEnd|..], rest[..end.value])) else None
  }

  predicate PathAllowed(path: string) {
    |path| > 0 && '\0' !in path && '\U{FFFD}' !in path
  }

  function ParseSplit(hashText: string, fileText: string, isEscaped: bool): Parsed {
    if |hashText| != 64 || !IsHex(hashText) then Malformed
    else
      var path := if isEscaped then Unescape(fileText) else Some(fileText);
      if path.Some? && PathAllowed(path.value) then Parsed(fileText, isEscaped, path.value, OfHex(hashText))
      else Malformed
  }

  function ParseLine(text: string): Parsed {
    var line := TrimEnd(text);
    if |line| == 0 then Malformed
    else
      var isEscaped := line[0] == '\\';
      var split := SplitLine(if isEscaped then line[1..] else line);
      if split.None? then Malformed else ParseSplit(split.value.0, split.value.1, isEscaped)
  }

  // ---- Printed lines read back ----

  lemma PathTextShape(path: string)
    ensures '\n' !in PathText(path) && '\r' !in PathText(path)
    ensures DoubleSpace(PathText(path)) <==> DoubleSpace(path)
    ensures (if NeedsEscape(path) then Unescape(PathText(path)) else Some(PathText(path))) == Some(path)
  {
    hide Escape, Unescape;
    if NeedsEscape(path) {
      EscapeShape(path);
      EscapeRoundTrip(path);
    }
  }

  lemma TrimNewline(line: string)
    requires |line| > 0 && line[|line| - 1] !in "\r\n"
    ensures TrimEnd(line + "\n") == line
  {
    assert (line + "\n")[..|line|] == line;
  }

  /** What a printed path and hash parse to, once the line has been split where it was put together. */
  lemma ParseSplitBack(path: string, hash: Hash)
    ensures ParseSplit(Hex(hash), PathText(path), NeedsEscape(path))
         == if PathAllowed(path) then Parsed(PathText(path), NeedsEscape(path), path, hash) else Malformed
  {
    hide Escape, Unescape, Hex, IsHex, OfHex, PathText, NeedsEscape;
    PathTextShape(path);
    HexRoundTrip(hash);
  }

  /** The mark and what follows it. */
  lemma MarkBack(path: string, rest: string)
    requires |rest| > 0 && rest[0] != '\\' && rest[|rest| - 1] !in "\r\n"
    ensures var line := TrimEnd(Mark(path) + rest + "\n");
      && |line| > 0 && (line[0] == '\\' <==> NeedsEscape(path))
      && (if line[0] == '\\' then line[1..] else line) == rest
  {
    hide NeedsEscape;
    var line := Mark(path) + rest;
    TrimNewline(line);
    if NeedsEscape(path) {
      assert line[1..] == rest;
    } else {
      assert line == rest;
    }
  }

  lemma HexEnds(hash: Hash)
    ensures Hex(hash)[0] !in " ()=\\\r\nBLAKE" && Hex(hash)[63] !in " ()=\\\r\nBLAKE"
    ensures ' ' !in Hex(hash) && ')' !in Hex(hash)
  {
    hide Hex;
    HexShape(hash);
    assert Hex(hash)[0] in Hex(hash) && Hex(hash)[63] in Hex(hash);
  }

  /** An untagged line splits where it was put together, wherever the path has spaces. */
  lemma SplitUntagged(hex: string, file: string)
    requires |hex| == 64 && ' ' !in hex
    ensures SplitLine(hex + "  " + file) == Some((hex, file))
  {
    var line := hex + "  " + file;
    assert line[64..66] == "  ";
    assert At(line, "  ", 64);
    forall j: nat | At(line, "  ", j) ensures j >= 64 {
      assert line[j] == line[j..j + 2][0] == ' ';
      assert forall i :: 0 <= i < 64 ==> line[i] == hex[i];
    }
    assert line[..64] == hex && line[66..] == file;
  }

  /** An untagged line reads back as the same path and hash just when the path is one that may be
      checked at all. */
  lemma UntaggedRoundTrip(path: string, hash: Hash)
    ensures ParseLine(UntaggedLine(path, hash))
         == if PathAllowed(path) then Parsed(PathText(path), NeedsEscape(path), path, hash) else Malformed
  {
    hide Hex, PathText, NeedsEscape, Mark, TrimEnd, SplitLine, ParseSplit;
    var text := PathText(path);
    var rest := Hex(hash) + "  " + text;
    HexEnds(hash);
    PathTextShape(path);
    assert rest[0] == Hex(hash)[0];
    assert rest[|rest| - 1] !in "\r\n" by {
      if |text| > 0 { assert rest[|rest| - 1] == text[|text| - 1] && text[|text| - 1] in text; }
      else { assert rest[|rest| - 1] == ' '; }
    }
    MarkBack(path, rest);
    assert UntaggedLine(path, hash) == Mark(path) + rest + "\n";
    SplitUntagged(Hex(hash), text);
    ParseSplitBack(path, hash);
  }

  /** No pair of spaces, in terms of the separator. */
  lemma DoubleSpaceAt(s: string)
    ensures First(s, "  ").Some? <==> DoubleSpace(s)
  {
    var k := First(s, "  ");
    if k.Some? {
      assert s[k.value..k.value + 2][0] == ' ' && s[k.value..k.value + 2][1] == ' ';
      assert s[k.value] == ' ' && s[k.value + 1] == ' ';
    }
    if DoubleSpace(s) {
      var i :| 0 <= i < |s| - 1 && s[i] == ' ' && s[i + 1] == ' ';
      assert s[i..i + 2] == "  ";
      assert At(s, "  ", i);
    }
  }

  function Tagged(file: string, hex: string): string {
    TagStart + file + TagEnd + hex
  }

  /** Where two strings meet, a pair of spaces can only come from a space on either side. */
  lemma DoubleSpaceJoin(a: string, b: string)
    requires |a| > 0 && |b| > 0 && (a[|a| - 1] != ' ' || b[0] != ' ')
    ensures DoubleSpace(a + b) <==> DoubleSpace(a) || DoubleSpace(b)
  {
    var s, n := a + b, |a|;
    if i :| 0 <= i < n - 1 && a[i] == ' ' && a[i + 1] == ' ' {
      assert s[i] == ' ' && s[i + 1] == ' ';
    }
    if i :| 0 <= i < |b| - 1 && b[i] == ' ' && b[i + 1] == ' ' {
      assert s[n + i] == ' ' && s[n + i + 1] == ' ';
    }
    if i :| 0 <= i < |s| - 1 && s[i] == ' ' && s[i + 1] == ' ' {
      if i + 1 < n {
        assert a[i] == ' ' && a[i + 1] == ' ';
      } else {
        assert b[i - n] == ' ' && b[i - n + 1] == ' ';
      }
    }
  }

  /** The only pairs of spaces in a tagged line are those of the path. */
  lemma TaggedDoubleSpace(file: string, hex: string)
    requires |hex| == 64 && ' ' !in hex
    ensures DoubleSpace(Tagged(file, hex)) <==> DoubleSpace(file)
  {
    hide DoubleSpace;
    var start := TagStart + file;
    assert !DoubleSpace(TagStart) && !DoubleSpace(TagEnd) && !DoubleSpace(hex) by { NoDoubleSpace(hex); }
    if |file| > 0 {
      DoubleSpaceJoin(TagStart, file);
    } else {
      assert start == TagStart && !DoubleSpace(file) by { NoDoubleSpace(file); }
    }
    DoubleSpaceJoin(start, TagEnd);
    DoubleSpaceJoin(start + TagEnd, hex);
  }

  lemma NoDoubleSpace(s: string)
    requires ' ' !in s
    ensures !DoubleSpace(s) && !DoubleSpace(TagStart) && !DoubleSpace(TagEnd)
  {}

  /** A tagged line without a pair of spaces splits where it was put together, wherever the path has
      what looks like the end of the tag. */
  lemma SplitTagged(file: string, hex: string)
    requires |hex| == 64 && ' ' !in hex && ')' !in hex && !DoubleSpace(file)
    ensures SplitLine(Tagged(file, hex)) == Some((hex, file))
  {
    var line := Tagged(file, hex);
    TaggedDoubleSpace(file, hex);
    DoubleSpaceAt(line);
    assert line[0..8] == TagStart;
    var rest := line[8..];
    assert rest == file + TagEnd + hex;
    LastTagEnd(file, hex);
    assert rest[..|file|] == file && rest[|file| + 4..] == hex;
  }

  lemma LastTagEnd(file: string, hex: string)
    requires ')' !in hex
    ensures Last(file + TagEnd + hex, TagEnd) == Some(|file|)
  {
    LastBetween(file, TagEnd, hex);
  }

  /** A separator that starts with a character found neither later in it nor behind it. */
  lemma LastBetween(a: string, sep: string, b: string)
    requires |sep| > 0 && sep[0] !in sep[1..] && sep[0] !in b
    ensures Last(a + sep + b, sep) == Some(|a|)
  {
    hide Last;
    var s, n := a + sep + b, |a|;
    assert s[n..n + |sep|] == sep;
    forall j | n < j < |s| ensures s[j] != sep[0] {
      if j < n + |sep| {
        assert s[j] == sep[1..][j - n - 1];
      } else {
        assert s[j] == b[j - n - |sep|];
      }
    }
    LastIs(s, sep, n);
  }

  lemma LastIs(s: string, sep: string, k: nat)
    requires |sep| > 0 && At(s, sep, k)
    requires forall j :: k < j < |s| ==> s[j] != sep[0]
    ensures Last(s, sep) == Some(k)
  {
    hide Last;
    var last := Last(s, sep);
    if last.Some? { AtStart(s, sep, last.value); }
  }

  lemma AtStart(s: string, sep: string, k: nat)
    requires |sep| > 0 && At(s, sep, k)
    ensures s[k] == sep[0]
  {
    assert s[k] == s[k..k + |sep|][0];
  }

  /** A tagged line reads back as the same path and hash just when the path may be checked and has
      no two adjacent spaces; otherwise it is rejected. */
  lemma TaggedRoundTrip(path: string, hash: Hash)
    ensures ParseLine(TaggedLine(path, hash))
         == if PathAllowed(path) && !DoubleSpace(path)
            then Parsed(PathText(path), NeedsEscape(path), path, hash) else Malformed
  {
    hide Hex, PathText, NeedsEscape, Mark, TrimEnd, SplitLine, ParseSplit, IsHex, Tagged;
    var text := PathText(path);
    var rest := Tagged(text, Hex(hash));
    HexEnds(hash);
    PathTextShape(path);
    TaggedEnds(text, Hex(hash));
    MarkBack(path, rest);
    assert TaggedLine(path, hash) == Mark(path) + rest + "\n" by { TaggedLineIs(path, hash); }
    if DoubleSpace(path) {
      TaggedDoubleSpace(text, Hex(hash));
      SplitTaggedWrong(text, Hex(hash), NeedsEscape(path));
    } else {
      SplitTagged(text, Hex(hash));
      ParseSplitBack(path, hash);
    }
  }

  lemma TaggedLineIs(path: string, hash: Hash)
    ensures TaggedLine(path, hash) == Mark(path) + Tagged(PathText(path), Hex(hash)) + "\n"
  {
    hide Hex, PathText, Mark;
  }

  lemma TaggedEnds(file: string, hex: string)
    requires |hex| == 64
    ensures var line := Tagged(file, hex); |line| > 0 && line[0] == 'B' && line[|line| - 1] == hex[63]
  {}

  /** With a pair of spaces the line is cut there, and what comes before is no hash. */
  lemma SplitTaggedWrong(file: string, hex: string, isEscaped: bool)
    requires |hex| == 64 && ' ' !in hex && DoubleSpace(file)
    ensures var split := SplitLine(Tagged(file, hex));
      split.Some? && ParseSplit(split.value.0, split.value.1, isEscaped) == Malformed
  {
    hide Unescape;
    var line := Tagged(file, hex);
    TaggedDoubleSpace(file, hex);
    DoubleSpaceAt(line);
    TaggedEnds(file, hex);
    var k := First(line, "  ").value;
    assert line[k] == line[k..k + 2][0] == ' ';
    assert line[..k][0] == 'B';
  }

  // ---- The loops ----

  /** The printer of one line. */
  method PrintLine(path: string, hash: Hash, tag: bool) returns (line: string)
    ensures line == if tag then TaggedLine(path, hash) else UntaggedLine(path, hash)
  {
    hide Escape, Hex;
    var file, isEscaped := path, false;
    if '\\' in file || '\n' in file || '\r' in file {
      file := Escape(file);
      isEscaped := true;
    }
    line := "";
    if isEscaped { line := line + "\\"; }
    assert file == PathText(path) && line == Mark(path);
    hide Mark, PathText;
    if tag {
      Regroup(line, "BLAKE3 (", file, ") = ", Hex(hash), "\n");
      line := line + ("BLAKE3 (" + file + ") = ");
      line := line + (Hex(hash) + "\n");
    } else {
      Regroup(line, "", Hex(hash), "  ", file, "\n");
      line := line + Hex(hash);
      line := line + ("  " + file + "\n");
    }
  }

  lemma Regroup(a: string, b: string, c: string, d: string, e: string, f: string)
    ensures a + (b + c + d) + (e + f) == a + b + c + d + e + f
    ensures a + b + c + (d + e + f) == a + b + c + d + e + f
  {}

  lemma PrefixedNothing(r: Option<string>)
    ensures Prefixed("", r) == r
  {
    if r.Some? { assert "" + r.value == r.value; }
  }

  lemma {:induction false} Plain(path: string, i: nat)
    requires i <= |path| && '\\' !in path[..i]
    ensures Unescape(path) == Prefixed(path[..i], Unescape(path[i..]))
  {
    if i == 0 {
      assert path[0..] == path;
      PrefixedNothing(Unescape(path));
    } else {
      assert path[0] in path[..i];
      assert path[1..][..i - 1] == path[..i][1..];
      Plain(path[1..], i - 1);
      assert path[1..][i - 1..] == path[i..];
      PrefixedTwice([path[0]], path[1..][..i - 1], Unescape(path[i..]));
      assert [path[0]] + path[1..][..i - 1] == path[..i];
    }
  }

  function Find(s: string, c: char): (k: Option<nat>)
    ensures k.Some? ==> k.value < |s| && s[k.value] == c && c !in s[..k.value]
    ensures k.None? ==> c !in s
  {
    if |s| == 0 then None
    else if s[0] == c then Some(0)
    else
      var k := Find(s[1..], c);
      assert k.Some? ==> s[..k.value + 1] == [s[0]] + s[1..][..k.value];
      if k.Some? then Some(k.value + 1) else None
  }

  function Unescaped(c: char): Option<string> {
    if c == 'n' then Some("\n") else if c == 'r' then Some("\r") else if c == '\\' then Some("\\") else None
  }

  lemma PrefixedTwice(a: string, b: string, r: Option<string>)
    ensures Prefixed(a, Prefixed(b, r)) == Prefixed(a + b, r)
  {
    if r.Some? { assert a + (b + r.value) == a + b + r.value; }
  }

  /** Up to and with the first backslash. */
  lemma UnescapeStep(before: string, path: string, i: nat)
    requires i < |path| && path[i] == '\\' && '\\' !in path[..i]
    ensures Prefixed(before, Unescape(path)) ==
      if i + 1 == |path| || Unescaped(path[i + 1]).None? then None
      else Prefixed(before + path[..i] + Unescaped(path[i + 1]).value, Unescape(path[i + 2..]))
  {
    Plain(path, i);
    var rest := path[i..];
    assert rest[0] == '\\' && |rest| == |path| - i;
    if i + 1 < |path| {
      assert rest[1] == path[i + 1] && rest[2..] == path[i + 2..];
      var c, r := Unescaped(rest[1]), Unescape(rest[2..]);
      if c.Some? {
        assert Unescape(rest) == Prefixed(c.value, r);
        PrefixedTwice(path[..i], c.value, r);
        PrefixedTwice(before, path[..i] + c.value, r);
        assert before + (path[..i] + c.value) == before + path[..i] + c.value;
      }
    }
  }

  lemma UnescapeNone(path: string)
    requires '\\' !in path
    ensures Unescape(path) == Some(path)
  {
    assert path[..|path|] == path && path[|path|..] == [];
    Plain(path, |path|);
    UnescapeNothing();
    assert path + [] == path;
  }

  method UnescapeLoop(text: string) returns (result: Option<string>)
    ensures result == Unescape(text)
  {
    hide Unescape;
    var path, unescaped := text, "";
    PrefixedNothing(Unescape(text));
    var found := Find(path, '\\');
    while found.Some?
      invariant Unescape(text) == Prefixed(unescaped, Unescape(path))
      invariant found == Find(path, '\\')
      decreases |path|
    {
      var i := found.value;
      UnescapeStep(unescaped, path, i);
      if i >= |path| - 1 { return None; }
      unescaped := unescaped + path[..i];
      match path[i + 1] {
        case 'n' => unescaped := unescaped + "\n";
        case 'r' => unescaped := unescaped + "\r";
        case '\\' => unescaped := unescaped + "\\";
        case _ => return None;
      }
      path := path[i + 2..];
      found := Find(path, '\\');
    }
    UnescapeNone(path);
    result := Some(unescaped + path);
  }

  /** Decodes a hash, high digit first. */
  method ReadHash(text: string) returns (hash: Option<Hash>)
    ensures hash.Some? <==> |text| == 64 && IsHex(text)
    ensures hash.Some? ==> hash.value == OfHex(text)
  {
    hide HexHalfByte;
    if |text| != 64 { return None; }
    var bytes: seq<U8> := [];
    for i := 0 to 32
      invariant |bytes| == i
      invariant forall j :: 0 <= j < 2 * i ==> HexHalfByte(text[j]).Some?
      invariant forall j :: 0 <= j < i ==> bytes[j] == ByteOf(text[2 * j], text[2 * j + 1])
    {
      var high := HexHalfByte(text[2 * i]);
      if high.None? { return None; }
      var low := HexHalfByte(text[2 * i + 1]);
      if low.None? { return None; }
      bytes := bytes + [ByteOf(text[2 * i], text[2 * i + 1])];
    }
    assert bytes == OfHex(text);
    hash := Some(bytes);
  }

  method ParseCheckLine(text: string) returns (parsed: Parsed)
    ensures parsed == ParseLine(text)
  {
    hide Unescape, IsHex, OfHex;
    var line := TrimEnd(text);
    if |line| == 0 { return Malformed; }
    var isEscaped := line[0] == '\\';
    var lineAfterSlash := if isEscaped then line[1..] else line;
    var split := SplitLine(lineAfterSlash);
    if split.None? { return Malformed; }
    var (hashText, fileText) := split.value;
    var hash := ReadHash(hashText);
    if hash.None? { return Malformed; }
    var path := Some(fileText);
    if isEscaped { path := UnescapeLoop(fileText); }
    if path.None? || !PathAllowed(path.value) { return Malformed; }
    parsed := Parsed(fileText, isEscaped, path.value, hash.value);
  }
}
