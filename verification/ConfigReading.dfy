/** Reading back what a save wrote: the text is written line by line, and read through buffers of
    lib/config.c that may cut a line into pieces. */
module ConfigReading {
  import opened ConfigStore
  import opened ConfigLine
  import opened ConfigPieces
  import opened ConfigText
  import opened CText
  import opened Common

  const PARSE_BUF: nat := 40960          // the buffer of parse_conf_data
  const SAVE_BUF: nat := 65536           // the buffer of vzctl2_conf_save
  const REACH: nat := 40959              // what one call of fgets gives parse_conf_data

  /** What a line says of a name when it is parsed, whole or in pieces. */
  function LineReading(line: Str, n: Str): Option<Str> {
    ValueOf(CONF_FILE, Fgets(line.text, PARSE_BUF), n)
  }

  /** The last line that says something decides. */
  function Reading(lines: seq<Str>, n: Str): Option<Str> {
    if |lines| == 0 then None
    else
      var r := LineReading(lines[|lines| - 1], n);
      if r.Some? then r else Reading(lines[..|lines| - 1], n)
  }

  function TextReading(text: string, n: Str): Option<Str> {
    ValueOf(CONF_FILE, Fgets(text, PARSE_BUF), n)
  }

  lemma ReadingOfMore(all: seq<Str>, lines: seq<Str>, line: Str, n: Str)
    requires all == lines + [line]
    ensures Reading(all, n) == if LineReading(line, n).Some? then LineReading(line, n) else Reading(lines, n)
  {
    assert all[..|all| - 1] == lines;
  }

  lemma {:induction false} ReadingOfBoth(a: seq<Str>, b: seq<Str>, n: Str)
    ensures Reading(a + b, n) == if Reading(b, n).Some? then Reading(b, n) else Reading(a, n)
  {
    if |b| == 0 {
      assert a + b == a;
    } else {
      var front, last := b[..|b| - 1], b[|b| - 1];
      ReadingOfBoth(a, front, n);
      assert a + b == (a + front) + [last];
      ReadingOfMore(a + b, a + front, last, n);
    }
  }

  lemma ReadingOfOne(line: Str, n: Str)
    ensures Reading([line], n) == LineReading(line, n)
  {
    assert |[line][..0]| == 0;
  }

  lemma ReadingOfNone(n: Str)
    ensures TextReading(Concat([]), n) == None
  {
  }

  lemma ReadingBehindLine(l: string, rest: string, n: Str)
    requires OneLine(Str(l)) && Ended(Str(l))
    ensures TextReading(l + rest, n) ==
      if TextReading(rest, n).Some? then TextReading(rest, n) else LineReading(Str(l), n)
  {
    FgetsBehindLine(l, rest, PARSE_BUF);
    ValueOfBoth(CONF_FILE, Fgets(l, PARSE_BUF), Fgets(rest, PARSE_BUF), n);
  }

  lemma OneLineIsRead(lines: seq<Str>, n: Str)
    requires |lines| == 1
    ensures TextReading(Concat(lines), n) == Reading(lines, n)
  {
    assert lines == [lines[0]];
    ConcatOne(lines[0]);
    ReadingOfOne(lines[0], n);
  }

  lemma FirstLineIsRead(l: Str, rest: seq<Str>, n: Str)
    requires OneLine(l) && Ended(l) && TextReading(Concat(rest), n) == Reading(rest, n)
    ensures TextReading(Concat([l] + rest), n) == Reading([l] + rest, n)
  {
    ConcatFirst(l, rest);
    ReadingBehindLine(l.text, Concat(rest), n);
    ReadingOfBoth([l], rest, n);
    ReadingOfOne(l, n);
  }

  lemma {:induction false} LinesAreRead(lines: seq<Str>, n: Str)
    requires Separate(lines) && forall line <- lines :: OneLine(line)
    ensures TextReading(Concat(lines), n) == Reading(lines, n)
  {
    if |lines| == 0 {
      ReadingOfNone(n);
    } else if |lines| == 1 {
      OneLineIsRead(lines, n);
    } else {
      LinesAreRead(lines[1..], n);
      FirstLineIsRead(lines[0], lines[1..], n);
      assert lines == [lines[0]] + lines[1..];
    }
  }

  /** A text is read line by line. */
  lemma TextIsReadByLines(text: string, n: Str)
    ensures TextReading(text, n) == Reading(Split(text), n)
  {
    SplitSeparates(text);
    SplitKeepsText(text);
    LinesAreRead(Split(text), n);
  }

  // ---------------------------------------------------------------------
  // A stored line, also behind a blank one.
  // ---------------------------------------------------------------------

  lemma TwoParts(a: string, b: string, size: nat, m: Str)
    requires size > 1
    ensures ValueOf(CONF_FILE, [Str(a)] + Fgets(b, size), m) ==
      var v := ValueOf(CONF_FILE, Fgets(b, size), m);
      if v.Some? then v else if Names(CONF_FILE, Str(a), m) then Some(ParseLine(Str(a)).value) else None
  {
    ValueOfBoth(CONF_FILE, [Str(a)], Fgets(b, size), m);
    ValueOfOne(CONF_FILE, Str(a), m);
  }

  lemma {:induction false} SilentPieces(t: string, size: nat, m: Str)
    requires size > 1 && '=' !in t
    ensures ValueOf(CONF_FILE, Fgets(t, size), m) == None
    decreases |t|
  {
    if |t| > 0 {
      var k := PieceEnd(t, size);
      assert forall c <- t[..k] :: c in t;
      assert forall c <- t[k..] :: c in t;
      SilentPieces(t[k..], size, m);
      NoSignSaysNothing(t[..k]);
      TwoParts(t[..k], t[k..], size, m);
    }
  }

  /** What is read of a stored line from behind its start is never its setting. */
  lemma {:induction false} TailPiecesNeverRead(name: Str, val: Str, i: nat, t: string, size: nat)
    requires PlainName(name) && 1 <= i <= |Render(name, val).text| && t == Render(name, val).text[i..] && size > 1
    ensures ValueOf(CONF_FILE, Fgets(t, size), name) != Some(val)
    decreases |t|
  {
    if |t| > 0 {
      var k := PieceEnd(t, size);
      TailPieceIs(Render(name, val).text, t, i, k);
      TailNeverReads(name, val, i, i + k);
      TailPiecesNeverRead(name, val, i + k, t[k..], size);
      TwoParts(t[..k], t[k..], size, name);
    }
  }

  lemma TailPieceIs(s: string, t: string, i: nat, k: nat)
    requires i <= |s| && t == s[i..] && k <= |t|
    ensures t[..k] == s[i..i + k] && t[k..] == s[i + k..]
  {
  }

  /** Behind so many blanks a stored line is read whole as far as it has to be. */
  predicate ReachedBehind(last: Str, name: Str, val: Str) {
    Reaches(name, val, REACH - |last.text|)
  }

  lemma StoredStartsPlain(name: Str, val: Str)
    requires PlainName(name)
    ensures var s := Render(name, val).text; |s| > 4 && s[0] != '\\'
  {
    assert Render(name, val).text[0] == name.text[0] && name.text[0] in name.text;
  }

  /** The start of a stored line behind blanks. */
  lemma BlankThenStart(last: Str, name: Str, val: Str, k: nat)
    requires PlainName(name) && Blank(last) && k <= |Render(name, val).text|
    ensures var p := ParseLine(Str(last.text + Render(name, val).text[..k]));
      p == Setting(name, val) <==> Reaches(name, val, k)
  {
    StoredStartsPlain(name, val);
    GluedToBlank(last, Render(name, val).text[..k]);
    StartReadsExactly(name, val, k);
  }

  lemma WholeBehindBlanks(last: Str, name: Str, val: Str, t: string, m: Str)
    requires PlainName(name) && Blank(last) && t == last.text + Render(name, val).text && OneLine(Str(t))
    requires |t| < PARSE_BUF
    ensures LineReading(Str(t), name) == Some(val) <==> ReachedBehind(last, name, val)
    ensures ReachedBehind(last, name, val) && m != name ==> LineReading(Str(t), m) == None
  {
    var s := Render(name, val).text;
    FgetsOfOneLine(t, PARSE_BUF);
    assert s[..|s|] == s;
    BlankThenStart(last, name, val, |s|);
    ValueOfOne(CONF_FILE, Str(t), name);
    ValueOfOne(CONF_FILE, Str(t), m);
  }

  /** A line longer than the buffer: the start of what stands behind "last", and the rest. */
  lemma CutIntoTwo(last: string, s: string, t: string, k: nat, m: Str)
    requires t == last + s && OneLine(Str(t)) && |t| >= PARSE_BUF && k == REACH - |last| && 0 < k <= |s|
    ensures LineReading(Str(t), m) ==
      var v := ValueOf(CONF_FILE, Fgets(s[k..], PARSE_BUF), m);
      if v.Some? then v
      else if Names(CONF_FILE, Str(last + s[..k]), m) then Some(ParseLine(Str(last + s[..k])).value)
      else None
  {
    FgetsOfOneLine(t, PARSE_BUF);
    assert t[..REACH] == last + s[..k] && t[REACH..] == s[k..];
    TwoParts(last + s[..k], s[k..], PARSE_BUF, m);
  }

  lemma CutBehindBlanks(last: Str, name: Str, val: Str, t: string, k: nat, m: Str)
    requires PlainName(name) && Blank(last) && t == last.text + Render(name, val).text && OneLine(Str(t))
    requires |t| >= PARSE_BUF && k == REACH - |last.text| && k > 0
    ensures LineReading(Str(t), name) == Some(val) <==> ReachedBehind(last, name, val)
    ensures ReachedBehind(last, name, val) && m != name ==> LineReading(Str(t), m) == None
  {
    var s := Render(name, val).text;
    CutIntoTwo(last.text, s, t, k, name);
    CutIntoTwo(last.text, s, t, k, m);
    BlankThenStart(last, name, val, k);
    if Reaches(name, val, k) {
      FewBehind(name, val, k);
      SilentPieces(s[k..], PARSE_BUF, name);
      SilentPieces(s[k..], PARSE_BUF, m);
    } else {
      TailPiecesNeverRead(name, val, k, s[k..], PARSE_BUF);
    }
  }

  /** What is cut off holds no equal sign. */
  lemma FewBehind(name: Str, val: Str, k: nat)
    requires k < |Render(name, val).text| && Reaches(name, val, k)
    ensures '=' !in Render(name, val).text[k..]
  {
    var s, n, v := Render(name, val).text, name.text, val.text;
    RenderedLength(name, val);
    assert s[|s| - 1] == '\n' && s[|s| - 2] == '"' && (|v| == 0 ==> s[|s| - 3] == '"');
  }

  /** A stored line behind blanks reads back exactly when enough of it is reached, and then says
      nothing of other names. */
  lemma StoredBehindBlanks(last: Str, name: Str, val: Str, t: string, m: Str)
    requires PlainName(name) && Blank(last) && t == last.text + Render(name, val).text && OneLine(Str(t))
    requires |last.text| < REACH
    ensures LineReading(Str(t), name) == Some(val) <==> ReachedBehind(last, name, val)
    ensures ReachedBehind(last, name, val) && m != name ==> LineReading(Str(t), m) == None
  {
    if |t| < PARSE_BUF {
      WholeBehindBlanks(last, name, val, t, m);
    } else {
      CutBehindBlanks(last, name, val, t, REACH - |last.text|, m);
    }
  }

  /** A setting that comes back: no newline, no backslash, no comment, and the stored line is reached
      but for its newline; or but for the closing quote too, if the value does not end in a blank or a
      quote; or but for both quotes of an empty value. */
  predicate Storable(name: Str, val: Str) {
    '\n' !in val.text && Reaches(name, val, REACH)
  }

  lemma StoredLineReads(name: Str, val: Str, m: Str)
    requires PlainName(name) && '\n' !in val.text
    ensures LineReading(Render(name, val), name) == Some(val) <==> Storable(name, val)
    ensures Storable(name, val) && m != name ==> LineReading(Render(name, val), m) == None
  {
    var last := Str("");
    RenderedIsOneLine(name, val);
    assert last.text + Render(name, val).text == Render(name, val).text;
    StoredBehindBlanks(last, name, val, Render(name, val).text, m);
  }

  /** A file with one stored line reads back exactly when its setting is storable. */
  lemma StoredReadsBackExactly(name: Str, val: Str)
    requires PlainName(name)
    ensures TextReading(Render(name, val).text, name) == Some(val) <==> Storable(name, val)
  {
    if '\n' in val.text {
      TextHasNoNewlineValue(Render(name, val).text, PARSE_BUF, name);
    } else {
      StoredLineReads(name, val, name);
    }
  }

  /** No setting whose value is as long as the buffer is storable, and none that fits it is not for
      its length. */
  lemma StorableLengths(name: Str, val: Str)
    requires PlainName(name) && Clear(val) && '\n' !in val.text
    ensures |name.text| + |val.text| + 4 <= PARSE_BUF ==> Storable(name, val)
    ensures |val.text| > 0 && |name.text| + |val.text| + 4 > PARSE_BUF + 1 ==> !Storable(name, val)
  {
    RenderedLength(name, val);
  }
}
