/** Configuration files as text: how vzctl2_conf_save and parse_conf_data of lib/config.c cut a file
    into lines, and into pieces where a line is longer than the buffer. */
module ConfigText {
  import opened ConfigStore
  import opened ConfigLine
  import opened CText
  import opened Common

  /** fgets: a line ends behind its newline, or with the file. */
  function Split(text: string): seq<Str>
    decreases |text|
  {
    if |text| == 0 then []
    else
      var n := Find(text, '\n');
      if n == |text| then [Str(text)] else [Str(text[..n + 1])] + Split(text[n + 1..])
  }

  function Concat(lines: seq<Str>): string {
    if |lines| == 0 then "" else lines[0].text + Concat(lines[1..])
  }

  predicate Ended(line: Str) {
    |line.text| > 0 && line.text[|line.text| - 1] == '\n'
  }

  /** Nothing follows a newline. */
  predicate OneLine(line: Str) {
    |line.text| > 0 && '\n' !in line.text[..|line.text| - 1]
  }

  ghost predicate AllEnded(lines: seq<Str>) {
    forall line <- lines :: Ended(line)
  }

  /** Every line but the last one is ended. */
  ghost predicate Separate(lines: seq<Str>) {
    forall i :: 0 <= i < |lines| - 1 ==> Ended(lines[i])
  }

  lemma {:induction false} SplitSeparates(text: string)
    ensures Separate(Split(text)) && forall line <- Split(text) :: OneLine(line)
    decreases |text|
  {
    if |text| > 0 {
      var n := Find(text, '\n');
      if n < |text| {
        SplitSeparates(text[n + 1..]);
        assert text[..n + 1][..n] == text[..n];
      }
    }
  }

  lemma {:induction false} SeparateIsSplit(lines: seq<Str>)
    requires Separate(lines) && forall line <- lines :: OneLine(line)
    ensures Split(Concat(lines)) == lines
  {
    if |lines| > 0 {
      var l, rest := lines[0].text, Concat(lines[1..]);
      var n := |l| - 1;
      assert l == l[..n] + l[n..];
      assert OneLine(lines[0]);
      if l[n] == '\n' {
        assert l + rest == l[..n] + (l[n..] + rest);
        FindFirst(l[..n], l[n..] + rest, '\n');
        assert (l + rest)[..n + 1] == l && (l + rest)[n + 1..] == rest;
        SeparateIsSplit(lines[1..]);
      } else {
        assert lines[1..] == [] && l + rest == l;
        assert '\n' !in l;
        FindFirst(l, "", '\n');
        assert l + "" == l;
      }
    }
  }

  /** Lines written one after the other are read as they are exactly when all but the last are ended. */
  lemma ReadAsWrittenExactly(lines: seq<Str>)
    requires forall line <- lines :: OneLine(line)
    ensures Split(Concat(lines)) == lines <==> Separate(lines)
  {
    SplitSeparates(Concat(lines));
    if Separate(lines) {
      SeparateIsSplit(lines);
    }
  }

  /** How much of a text one call of fgets reads. */
  function PieceEnd(text: string, size: nat): (m: nat)
    requires size > 1 && |text| > 0
    ensures 0 < m <= |text| && m < size
  {
    var n := Find(text, '\n') + 1;
    var k := if |text| < n then |text| else n;
    if k < size then k else size - 1
  }

  /** fgets into a buffer of this size: a longer line comes in pieces. */
  function Fgets(text: string, size: nat): seq<Str>
    requires size > 1
    decreases |text|
  {
    if |text| == 0 then []
    else
      var m := PieceEnd(text, size);
      [Str(text[..m])] + Fgets(text[m..], size)
  }

  lemma {:induction false} PiecesFit(text: string, size: nat)
    requires size > 1
    ensures forall line <- Fgets(text, size) :: |line.text| < size
    decreases |text|
  {
    if |text| > 0 {
      PiecesFit(text[PieceEnd(text, size)..], size);
    }
  }

  lemma {:induction false} ShortLinesAreWhole(text: string, size: nat)
    requires size > 1 && forall line <- Split(text) :: |line.text| < size
    ensures Fgets(text, size) == Split(text)
    decreases |text|
  {
    if |text| > 0 {
      var n := Find(text, '\n');
      if n < |text| {
        assert Split(text)[0] == Str(text[..n + 1]) && Split(text)[1..] == Split(text[n + 1..]);
        ShortLinesAreWhole(text[n + 1..], size);
      } else {
        assert Split(text)[0] == Str(text);
        assert text[..|text|] == text && text[|text|..] == "";
      }
    }
  }

  /** The lines of a text are what fgets gives exactly when each of them fits its buffer. */
  lemma FgetsSplitsExactly(text: string, size: nat)
    requires size > 1
    ensures Fgets(text, size) == Split(text) <==> forall line <- Split(text) :: |line.text| < size
  {
    PiecesFit(text, size);
    if forall line <- Split(text) :: |line.text| < size {
      ShortLinesAreWhole(text, size);
    }
  }

  /** Names and values of what is to be written stay on their lines. */
  ghost predicate OnOneLine(es: seq<Entry>) {
    forall e <- es :: e.mask.updated && e.val.Some? ==> '\n' !in e.name.text && '\n' !in e.val.value.text
  }

  lemma RenderedIsOneLine(name: Str, val: Str)
    requires '\n' !in name.text && '\n' !in val.text
    ensures Ended(Render(name, val)) && OneLine(Render(name, val))
  {
    var s := Render(name, val).text;
    assert s[..|s| - 1] == name.text + "=\"" + val.text + "\"";
  }

  lemma WrittenIsEnded(e: Entry)
    requires OnOneLine([e]) && e.mask.updated
    ensures AllEnded(Written(CONF_FILE, e)) && forall line <- Written(CONF_FILE, e) :: OneLine(line)
  {
    assert e in [e];
    if e.val.Some? {
      RenderedIsOneLine(e.name, e.val.value);
    }
  }

  lemma RewrittenIsEnded(es: seq<Entry>, line: Str)
    requires OnOneLine(es) && OneLine(line)
    ensures forall l <- Rewritten(CONF_FILE, es, line) :: OneLine(l)
    ensures if Mine(CONF_FILE, es, line) then AllEnded(Rewritten(CONF_FILE, es, line))
            else Rewritten(CONF_FILE, es, line) == [line]
  {
    if Mine(CONF_FILE, es, line) {
      var i := IndexOf(es, CONF_FILE.parse(line).name);
      assert es[i] in es;
      WrittenIsEnded(es[i]);
    }
  }

  lemma {:induction false} AllRewrittenAreEnded(es: seq<Entry>, lines: seq<Str>)
    requires OnOneLine(es) && AllEnded(lines) && forall line <- lines :: OneLine(line)
    ensures AllEnded(RewrittenAll(CONF_FILE, es, lines))
    ensures forall line <- RewrittenAll(CONF_FILE, es, lines) :: OneLine(line)
  {
    if |lines| > 0 {
      AllRewrittenAreEnded(es, lines[..|lines| - 1]);
      RewrittenIsEnded(es, lines[|lines| - 1]);
    }
  }

  lemma {:induction false} AppendedAreEnded(es: seq<Entry>, lines: seq<Str>, k: nat)
    requires k <= |es| && OnOneLine(es)
    ensures AllEnded(Appended(CONF_FILE, es, lines, k))
    ensures forall line <- Appended(CONF_FILE, es, lines, k) :: OneLine(line)
  {
    if k > 0 {
      AppendedAreEnded(es, lines, k - 1);
      assert es[k - 1] in es;
      if es[k - 1].mask.updated {
        WrittenIsEnded(es[k - 1]);
      }
    }
  }

  lemma OneInTheMiddle(front: seq<Str>, line: Str, back: seq<Str>)
    requires AllEnded(front) && AllEnded(back)
    ensures Separate(front + [line] + back) <==> Ended(line) || back == []
  {
    var all := front + [line] + back;
    assert all[|front|] == line;
    assert forall i :: 0 <= i < |front| ==> all[i] == front[i] && front[i] in front;
    assert forall i :: |front| < i < |all| ==> all[i] == back[i - |front| - 1] && all[i] in back;
  }

  lemma AllSeparate(lines: seq<Str>)
    requires AllEnded(lines)
    ensures Separate(lines)
  {
    assert forall i :: 0 <= i < |lines| ==> lines[i] in lines;
  }

  /** What a save writes, around what becomes of the last line. */
  lemma SavedInParts(sx: Syntax, es: seq<Entry>, lines: seq<Str>, front: seq<Str>, last: Str)
    requires lines == front + [last]
    ensures Saved(sx, es, lines) ==
      RewrittenAll(sx, es, front) + Rewritten(sx, es, last) + Appended(sx, es, lines, |es|)
  {
    assert lines[..|lines| - 1] == front;
  }

  lemma SavedFromLast(es: seq<Entry>, lines: seq<Str>, front: seq<Str>, last: Str)
    requires OnOneLine(es) && lines == front + [last] && AllEnded(front)
    requires forall line <- lines :: OneLine(line)
    ensures var saved := Saved(CONF_FILE, es, lines);
      Split(Concat(saved)) == saved <==>
      Ended(last) || Mine(CONF_FILE, es, last) || Appended(CONF_FILE, es, lines, |es|) == []
  {
    assert last in lines && forall line <- front :: line in lines;
    AllRewrittenAreEnded(es, front);
    RewrittenIsEnded(es, last);
    AppendedAreEnded(es, lines, |es|);
    SavedInParts(CONF_FILE, es, lines, front, last);
    SavedFromParts(es, lines, RewrittenAll(CONF_FILE, es, front), last, Appended(CONF_FILE, es, lines, |es|));
  }

  lemma SavedFromNothing(es: seq<Entry>)
    requires OnOneLine(es)
    ensures var saved := Saved(CONF_FILE, es, []);
      Split(Concat(saved)) == saved
  {
    AppendedAreEnded(es, [], |es|);
    var tail := Appended(CONF_FILE, es, [], |es|);
    AllSeparate(tail);
    ReadAsWrittenExactly(tail);
    assert [] + tail == tail;
  }

  /** The saved file reads as the lines that were written exactly when the last line of the old
      file is ended, or is rewritten, or nothing is written behind it. */
  lemma SavedTextExactly(es: seq<Entry>, text: string, lines: seq<Str>)
    requires OnOneLine(es) && lines == Split(text)
    ensures var saved := Saved(CONF_FILE, es, lines);
      Split(Concat(saved)) == saved <==>
      |lines| == 0 || Ended(lines[|lines| - 1]) || Mine(CONF_FILE, es, lines[|lines| - 1]) ||
      Appended(CONF_FILE, es, lines, |es|) == []
  {
    SplitSeparates(text);
    if |lines| == 0 {
      SavedFromNothing(es);
    } else {
      var front, last := lines[..|lines| - 1], lines[|lines| - 1];
      assert forall i :: 0 <= i < |front| ==> front[i] == lines[i];
      SavedFromLast(es, lines, front, last);
    }
  }

  lemma SavedFromParts(es: seq<Entry>, lines: seq<Str>, front: seq<Str>, last: Str, tail: seq<Str>)
    requires Saved(CONF_FILE, es, lines) == front + Rewritten(CONF_FILE, es, last) + tail
    requires AllEnded(front) && AllEnded(tail)
    requires (forall l <- front :: OneLine(l)) && (forall l <- tail :: OneLine(l))
    requires forall l <- Rewritten(CONF_FILE, es, last) :: OneLine(l)
    requires if Mine(CONF_FILE, es, last) then AllEnded(Rewritten(CONF_FILE, es, last))
             else Rewritten(CONF_FILE, es, last) == [last]
    ensures var saved := Saved(CONF_FILE, es, lines);
      Split(Concat(saved)) == saved <==> Ended(last) || Mine(CONF_FILE, es, last) || tail == []
  {
    var saved := Saved(CONF_FILE, es, lines);
    ReadAsWrittenExactly(saved);
    if Mine(CONF_FILE, es, last) {
      AllSeparate(saved);
    } else {
      OneInTheMiddle(front, last, tail);
    }
  }

  // ---------------------------------------------------------------------
  // Lines and pieces of a text.
  // ---------------------------------------------------------------------

  lemma ConcatOne(line: Str)
    ensures Concat([line]) == line.text
  {
    assert [line][1..] == [];
    assert line.text + "" == line.text;
  }

  lemma {:induction false} ConcatBoth(a: seq<Str>, b: seq<Str>)
    ensures Concat(a + b) == Concat(a) + Concat(b)
  {
    if |a| == 0 {
      assert a + b == b;
    } else {
      assert (a + b)[1..] == a[1..] + b;
      ConcatBoth(a[1..], b);
    }
  }

  lemma {:induction false} SplitKeepsText(text: string)
    ensures Concat(Split(text)) == text
    decreases |text|
  {
    if |text| > 0 {
      var n := Find(text, '\n');
      if n < |text| {
        SplitKeepsText(text[n + 1..]);
        ConcatBoth([Str(text[..n + 1])], Split(text[n + 1..]));
        ConcatOne(Str(text[..n + 1]));
      } else {
        ConcatOne(Str(text));
      }
    }
  }

  /** Pieces written one after the other are the text again. */
  lemma {:induction false} FgetsKeepsText(text: string, size: nat)
    requires size > 1
    ensures Concat(Fgets(text, size)) == text
    decreases |text|
  {
    if |text| > 0 {
      var m := PieceEnd(text, size);
      FgetsKeepsText(text[m..], size);
      ConcatFirst(Str(text[..m]), Fgets(text[m..], size));
      assert text == text[..m] + text[m..];
    }
  }

  lemma ConcatFirst(line: Str, rest: seq<Str>)
    ensures Concat([line] + rest) == line.text + Concat(rest)
  {
    assert ([line] + rest)[1..] == rest;
  }

  lemma {:induction false} PiecesAreOneLine(text: string, size: nat)
    requires size > 1
    ensures forall piece <- Fgets(text, size) :: OneLine(piece)
    decreases |text|
  {
    if |text| > 0 {
      var m := PieceEnd(text, size);
      PiecesAreOneLine(text[m..], size);
      assert forall k :: 0 <= k < m - 1 ==> text[..m][..m - 1][k] == text[k];
    }
  }

  lemma {:induction false} ValuesHaveNoNewline(lines: seq<Str>, n: Str)
    requires forall line <- lines :: OneLine(line)
    ensures var v := ValueOf(CONF_FILE, lines, n); v.Some? ==> '\n' !in v.value.text
  {
    if |lines| > 0 {
      var line := lines[|lines| - 1];
      assert line in lines;
      if Names(CONF_FILE, line, n) {
        LineHasNoNewline(line);
      } else {
        ValuesHaveNoNewline(lines[..|lines| - 1], n);
      }
    }
  }

  /** No text, read with whatever buffer, gives a value with a newline. */
  lemma TextHasNoNewlineValue(text: string, size: nat, n: Str)
    requires size > 1
    ensures var v := ValueOf(CONF_FILE, Fgets(text, size), n); v.Some? ==> '\n' !in v.value.text
  {
    PiecesAreOneLine(text, size);
    ValuesHaveNoNewline(Fgets(text, size), n);
  }

  lemma EndOfOneLine(t: string)
    requires OneLine(Str(t))
    ensures Find(t, '\n') >= |t| - 1
  {
    assert forall k :: 0 <= k < |t| - 1 ==> t[k] == t[..|t| - 1][k];
  }

  /** One line alone: whole if it fits the buffer, otherwise a full buffer and the rest. */
  lemma FgetsOfOneLine(t: string, size: nat)
    requires size > 1 && OneLine(Str(t))
    ensures Fgets(t, size) ==
      if |t| < size then [Str(t)] else [Str(t[..size - 1])] + Fgets(t[size - 1..], size)
  {
    EndOfOneLine(t);
    if |t| < size {
      assert PieceEnd(t, size) == |t|;
      assert t[..|t|] == t && |Fgets(t[|t|..], size)| == 0;
    } else {
      assert PieceEnd(t, size) == size - 1;
    }
  }

  /** An ended line does not affect how what follows is read. */
  lemma {:induction false} FgetsBehindLine(l: string, rest: string, size: nat)
    requires size > 1 && OneLine(Str(l)) && Ended(Str(l))
    ensures Fgets(l + rest, size) == Fgets(l, size) + Fgets(rest, size)
    decreases |l|
  {
    if |l| < size {
      WholePieceFirst(l, rest, size);
    } else {
      var a, b := l[..size - 1], l[size - 1..];
      FgetsOfOneLine(l, size);
      RestOfOneLine(l, size - 1);
      FgetsBehindLine(b, rest, size);
      FullPieceFirst(l, a, b, rest, size);
      Regroup([Str(a)], Fgets(b, size), Fgets(rest, size));
    }
  }

  lemma WholePieceFirst(l: string, rest: string, size: nat)
    requires size > 1 && OneLine(Str(l)) && Ended(Str(l)) && |l| < size
    ensures Fgets(l + rest, size) == Fgets(l, size) + Fgets(rest, size)
  {
    FgetsOfOneLine(l, size);
    FirstNewline(l, rest);
    OnePieceFirst(l + rest, l, rest, size);
  }

  lemma FullPieceFirst(l: string, a: string, b: string, rest: string, size: nat)
    requires size > 1 && OneLine(Str(l)) && Ended(Str(l)) && l == a + b && |a| == size - 1 && |b| > 0
    ensures Fgets(l + rest, size) == [Str(a)] + Fgets(b + rest, size)
  {
    FirstNewline(l, rest);
    assert l + rest == a + (b + rest);
    OnePieceFirst(l + rest, a, b + rest, size);
  }

  lemma Regroup<T>(a: seq<T>, b: seq<T>, c: seq<T>)
    ensures a + (b + c) == (a + b) + c
  {
  }

  lemma OnePieceFirst(t: string, a: string, b: string, size: nat)
    requires size > 1 && t == a + b && |t| > 0 && PieceEnd(t, size) == |a|
    ensures Fgets(t, size) == [Str(a)] + Fgets(b, size)
  {
    assert t[..|a|] == a && t[|a|..] == b;
  }

  lemma RestOfOneLine(l: string, m: nat)
    requires OneLine(Str(l)) && Ended(Str(l)) && m < |l|
    ensures OneLine(Str(l[m..])) && Ended(Str(l[m..]))
  {
    assert l[m..][..|l| - m - 1] == l[..|l| - 1][m..];
  }

  lemma FirstNewline(l: string, rest: string)
    requires OneLine(Str(l)) && Ended(Str(l))
    ensures Find(l + rest, '\n') == |l| - 1
  {
    var n := |l| - 1;
    assert l == l[..n] + l[n..];
    assert l + rest == l[..n] + (l[n..] + rest);
    FindFirst(l[..n], l[n..] + rest, '\n');
  }
}
