/** What the reader of check lines accepts: exactly the two layouts, and nothing else. */
module CheckLineForms {
  import opened Options
  import opened CheckLines

  // ---- Digits ----

  /** Only the sixteen printed digits are digits. */
  lemma DigitBack(c: char)
    requires HexHalfByte(c).Some?
    ensures HexHalfByte(c).value < 16 && HexDigit(HexHalfByte(c).value) == c
  {}

  lemma PairBack(high: char, low: char)
    requires HexHalfByte(high).Some? && HexHalfByte(low).Some?
    ensures var b := ByteOf(high, low); HexDigit(b / 16) == high && HexDigit(b % 16) == low
  {
    DigitBack(high);
    DigitBack(low);
    hide HexDigit, HexHalfByte;
    var h, l := HexHalfByte(high).value, HexHalfByte(low).value;
    assert (16 * h + l) / 16 == h && (16 * h + l) % 16 == l;
  }

  /** A hash text is what its bytes print as. */
  lemma HexBack(s: string)
    requires IsHex(s) && |s| % 2 == 0
    ensures Hex(OfHex(s)) == s
  {
    hide HexDigit, HexHalfByte, Hex, ByteOf;
    var bytes := OfHex(s);
    forall k | 0 <= k < |s| ensures Hex(bytes)[k] == s[k] {
      HexAt(bytes, k / 2);
      PairBack(s[2 * (k / 2)], s[2 * (k / 2) + 1]);
      assert k == 2 * (k / 2) || k == 2 * (k / 2) + 1;
    }
  }

  // ---- Line ends and escapes ----

  /** Only line breaks are trimmed, and all of them at the end. */
  lemma {:induction false} TrimmedEnd(text: string)
    ensures var line := TrimEnd(text);
      && |line| <= |text| && text[..|line|] == line
      && (forall i :: |line| <= i < |text| ==> text[i] == '\r' || text[i] == '\n')
      && (|line| > 0 ==> line[|line| - 1] != '\r' && line[|line| - 1] != '\n')
  {
    if |text| > 0 && text[|text| - 1] in "\r\n" {
      TrimmedEnd(text[..|text| - 1]);
    }
  }

  lemma NoBreaksAfter(s: string, k: nat)
    requires k <= |s| && '\n' !in s && '\r' !in s
    ensures '\n' !in s[k..] && '\r' !in s[k..]
  {}

  /** An escaped path without line breaks in it is the one the printer makes, and no other. */
  lemma {:induction false} UnescapeBack(s: string)
    requires Unescape(s).Some? && '\n' !in s && '\r' !in s
    ensures Escape(Unescape(s).value) == s
    decreases |s|
  {
    hide Escape;
    var p := Unescape(s).value;
    if |s| == 0 {
      EscapeNothing();
    } else if s[0] != '\\' {
      NoBreaksAfter(s, 1);
      UnescapeBack(s[1..]);
      assert p[1..] == Unescape(s[1..]).value;
      EscapeStep(p);
      assert s == [s[0]] + s[1..];
    } else {
      NoBreaksAfter(s, 2);
      UnescapeBack(s[2..]);
      assert p[1..] == Unescape(s[2..]).value;
      EscapeStep(p);
      assert s == s[..2] + s[2..];
    }
  }

  /** The accepted text of a marked path is its printed form just when it has no line breaks. */
  lemma MarkedPath(s: string, path: string)
    requires Unescape(s) == Some(path)
    ensures s == Escape(path) <==> '\n' !in s && '\r' !in s
  {
    hide Escape, Unescape;
    EscapeShape(path);
    if '\n' !in s && '\r' !in s { UnescapeBack(s); }
  }

  // ---- Layouts ----

  /** A line splits into hash and path just when it is one of the two layouts of them. */
  lemma SplitForms(line: string, hex: string, file: string)
    requires |hex| == 64 && ' ' !in hex && ')' !in hex
    ensures SplitLine(line) == Some((hex, file)) <==>
      line == hex + "  " + file || (line == Tagged(file, hex) && !DoubleSpace(file))
  {
    hide SplitLine, Tagged, DoubleSpace;
    if line == hex + "  " + file { SplitUntagged(hex, file); }
    if line == Tagged(file, hex) && !DoubleSpace(file) { SplitTagged(file, hex); }
    if SplitLine(line) == Some((hex, file)) { SplitApart(line, hex, file); }
  }

  lemma SplitApart(line: string, hex: string, file: string)
    requires |hex| == 64 && ' ' !in hex && SplitLine(line) == Some((hex, file))
    ensures line == hex + "  " + file || (line == Tagged(file, hex) && !DoubleSpace(file))
  {
    hide DoubleSpace;
    var two := First(line, "  ");
    if two.Some? {
      CutApart(line, "  ", two.value);
    } else {
      var rest := line[|TagStart|..];
      CutApart(rest, TagEnd, Last(rest, TagEnd).value);
      TagBack(line, file, hex);
      TaggedDoubleSpace(file, hex);
      DoubleSpaceAt(line);
    }
  }

  lemma TagBack(line: string, file: string, hex: string)
    requires At(line, TagStart, 0) && line[|TagStart|..] == file + TagEnd + hex
    ensures line == Tagged(file, hex)
  {
    assert line == line[0..|TagStart|] + line[|TagStart|..];
    assert TagStart + (file + TagEnd + hex) == TagStart + file + TagEnd + hex;
  }

  lemma CutApart(s: string, sep: string, k: nat)
    requires At(s, sep, k)
    ensures s == s[..k] + sep + s[k + |sep|..]
  {
    assert s == s[..k] + s[k..k + |sep|] + s[k + |sep|..];
  }

  /** The mark in front of a line. */
  function MarkOf(isEscaped: bool): string {
    if isEscaped then "\\" else ""
  }

  /** How the text of a path stands for the path. */
  predicate Stands(fileString: string, isEscaped: bool, path: string) {
    if isEscaped then Unescape(fileString) == Some(path) else fileString == path
  }

  /** The line that a mark, a hash and the text of a path make, in one layout or the other. The tagged layout
      cannot hold a pair of spaces. */
  predicate InForm(line: string, isEscaped: bool, hash: Hash, fileString: string) {
    || line == MarkOf(isEscaped) + (Hex(hash) + "  " + fileString)
    || (line == MarkOf(isEscaped) + ("BLAKE3 (" + fileString + ") = " + Hex(hash)) && !DoubleSpace(fileString))
  }

  lemma MarkedLine(line: string, isEscaped: bool, rest: string)
    requires |rest| > 0 && rest[0] != '\\'
    ensures line == MarkOf(isEscaped) + rest <==>
      |line| > 0 && (line[0] == '\\') == isEscaped && (if isEscaped then line[1..] else line) == rest
  {
    if |line| > 0 { assert line == [line[0]] + line[1..]; }
    assert MarkOf(false) + rest == rest;
    assert (MarkOf(true) + rest)[1..] == rest;
  }

  lemma ParseSplitForms(hashText: string, fileText: string, isEscaped: bool, path: string, hash: Hash)
    ensures ParseSplit(hashText, fileText, isEscaped) == Parsed(fileText, isEscaped, path, hash) <==>
      && hashText == Hex(hash) && Stands(fileText, isEscaped, path)
      && |path| > 0 && '\0' !in path && '\U{FFFD}' !in path
  {
    hide Hex, Unescape, IsHex, OfHex;
    HexRoundTrip(hash);
    if |hashText| == 64 && IsHex(hashText) { HexBack(hashText); }
  }

  /** A text is read as path and hash just when, without the line breaks at its end, it is one of the two
      layouts of them, the hash in lower-case digits, and the path may be checked. */
  lemma ParseForms(text: string, fileString: string, isEscaped: bool, path: string, hash: Hash)
    ensures ParseLine(text) == Parsed(fileString, isEscaped, path, hash) <==>
      && InForm(TrimEnd(text), isEscaped, hash, fileString)
      && Stands(fileString, isEscaped, path)
      && |path| > 0 && '\0' !in path && '\U{FFFD}' !in path
  {
    hide Hex, TrimEnd, SplitLine, Tagged, DoubleSpace, ParseSplit, Stands;
    var line, hex := TrimEnd(text), Hex(hash);
    HexEnds(hash);
    TaggedEnds(fileString, hex);
    assert (hex + "  " + fileString)[0] == hex[0];
    TagLetters(fileString, hex);
    MarkedLine(line, isEscaped, hex + "  " + fileString);
    MarkedLine(line, isEscaped, Tagged(fileString, hex));
    if |line| > 0 {
      var marked := line[0] == '\\';
      var rest := if marked then line[1..] else line;
      SplitForms(rest, hex, fileString);
      var split := SplitLine(rest);
      if split.Some? {
        ParseSplitShape(split.value.0, split.value.1, marked);
        ParseSplitForms(split.value.0, split.value.1, marked, path, hash);
      }
    }
  }

  lemma TagLetters(fileString: string, hex: string)
    ensures Tagged(fileString, hex) == "BLAKE3 (" + fileString + ") = " + hex
  {}

  lemma ParseSplitShape(hashText: string, fileText: string, isEscaped: bool)
    ensures var p := ParseSplit(hashText, fileText, isEscaped);
      p.Parsed? ==> p.fileString == fileText && p.isEscaped == isEscaped
  {
    hide Unescape, IsHex, OfHex;
  }
}
