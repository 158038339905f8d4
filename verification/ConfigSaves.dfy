/** One save of a file text: what it is read as afterwards. */
module ConfigSaves {
  import opened ConfigStore
  import opened ConfigLine
  import opened ConfigPieces
  import opened ConfigText
  import opened ConfigReading
  import opened CText
  import opened Common

  /** Settings a run may make. */
  type Settings = iset<(Str, Str)>

  ghost predicate AllPlain(P: Settings) {
    forall p :: p in P ==> PlainName(p.0)
  }

  ghost predicate AllStorable(P: Settings) {
    forall p :: p in P ==> Storable(p.0, p.1)
  }

  /** What is to be written is among the settings. */
  ghost predicate Tame(es: seq<Entry>, P: Settings) {
    forall e <- es :: e.mask.updated && e.val.Some? ==> (e.name, e.val.value) in P
  }

  ghost predicate Ready(es: seq<Entry>, P: Settings) {
    Unique(es) && NoneStored(es) && Tame(es, P) && AllPlain(P) && AllStorable(P)
  }

  // ---------------------------------------------------------------------
  // The lines of a text.
  // ---------------------------------------------------------------------

  /** A line no save cuts, and one call of fgets reads with its newline if that is missing. */
  predicate Short(line: Str) {
    |line.text| < if Ended(line) then SAVE_BUF else REACH
  }

  /** Read in pieces a line says nothing of other names than its own. */
  ghost predicate Own(line: Str) {
    forall n :: LineReading(line, n).Some? ==> Names(CONF_FILE, line, n)
  }

  /** A line that does no harm to a stored line written behind it. */
  ghost predicate Harmless(line: Str, P: Settings) {
    || Ended(line)
    || (Blank(line) && forall p :: p in P ==> ReachedBehind(line, p.0, p.1))
    || (forall p :: p in P ==> Names(CONF_FILE, line, p.0))
  }

  ghost predicate Fine(line: Str, P: Settings) {
    Short(line) && Own(line) && Harmless(line, P)
  }

  ghost predicate AllFine(lines: seq<Str>, P: Settings) {
    forall line <- lines :: Fine(line, P)
  }

  // ---------------------------------------------------------------------
  // What the lines a save writes are read as.
  // ---------------------------------------------------------------------

  lemma WrittenReads(es: seq<Entry>, i: nat, P: Settings, n: Str)
    requires Ready(es, P) && i < |es| && es[i].mask.updated
    ensures Reading(Written(CONF_FILE, es[i]), n) == if n == es[i].name then es[i].val else None
  {
    var e := es[i];
    assert e in es;
    if e.val.Some? {
      StoredLineReads(e.name, e.val.value, n);
      ReadingOfOne(Render(e.name, e.val.value), n);
    }
  }

  lemma LineReads(es: seq<Entry>, line: Str, P: Settings, n: Str)
    requires Ready(es, P)
    ensures Reading(Rewritten(CONF_FILE, es, line), n) ==
      if !Mine(CONF_FILE, es, line) then LineReading(line, n)
      else if Names(CONF_FILE, line, n) then ValueIn(es, n)
      else None
  {
    if Mine(CONF_FILE, es, line) {
      var i := IndexOf(es, ParseLine(line).name);
      assert Rewritten(CONF_FILE, es, line) == Written(CONF_FILE, es[i]);
      WrittenReads(es, i, P, n);
    } else {
      NotMineStays(CONF_FILE, es, line);
      ReadingOfOne(line, n);
    }
  }

  ghost predicate Named(lines: seq<Str>, n: Str) {
    exists line <- lines :: Names(CONF_FILE, line, n)
  }

  /** The entry of this name is updated. */
  ghost predicate UpdatedAt(es: seq<Entry>, n: Str) {
    var i := IndexOf(es, n);
    i < |es| && es[i].mask.updated
  }

  lemma MineIfUpdated(es: seq<Entry>, line: Str, n: Str)
    requires Names(CONF_FILE, line, n)
    ensures Mine(CONF_FILE, es, line) <==> UpdatedAt(es, n)
  {
  }

  lemma {:induction false} RewrittenReads(es: seq<Entry>, lines: seq<Str>, P: Settings, n: Str)
    requires Ready(es, P) && forall line <- lines :: Own(line)
    ensures Reading(RewrittenAll(CONF_FILE, es, lines), n) ==
      if !UpdatedAt(es, n) then Reading(lines, n) else if Named(lines, n) then ValueIn(es, n) else None
  {
    if |lines| > 0 {
      var front, line := lines[..|lines| - 1], lines[|lines| - 1];
      FrontAndLast(lines);
      RewrittenReads(es, front, P, n);
      ReadingOfBoth(RewrittenAll(CONF_FILE, es, front), Rewritten(CONF_FILE, es, line), n);
      LineReads(es, line, P, n);
      OneMoreNamed(lines, front, line, n);
      assert line in lines;
      if Names(CONF_FILE, line, n) {
        MineIfUpdated(es, line, n);
      }
    }
  }

  lemma OneMoreNamed(lines: seq<Str>, front: seq<Str>, line: Str, n: Str)
    requires lines == front + [line]
    ensures Named(lines, n) <==> Named(front, n) || Names(CONF_FILE, line, n)
  {
    assert line in lines;
  }

  ghost predicate RestIs(es: seq<Entry>, lines: seq<Str>, n: Str, i: nat, w: Option<Str>, j: nat)
    requires j < |es|
  {
    Reading(Rest(CONF_FILE, lines, es[j]), n) == if j == i then w else None
  }

  lemma {:induction false} AppendedReads(es: seq<Entry>, lines: seq<Str>, k: nat, n: Str, i: nat, w: Option<Str>)
    requires k <= |es| && forall j: nat :: j < |es| ==> RestIs(es, lines, n, i, w, j)
    ensures Reading(Appended(CONF_FILE, es, lines, k), n) == if i < k then w else None
  {
    if k > 0 {
      AppendedReads(es, lines, k - 1, n, i, w);
      ReadingOfBoth(Appended(CONF_FILE, es, lines, k - 1), Rest(CONF_FILE, lines, es[k - 1]), n);
      assert RestIs(es, lines, n, i, w, k - 1);
    }
  }

  lemma AllAppendedRead(es: seq<Entry>, lines: seq<Str>, P: Settings, n: Str, i: nat)
    requires Ready(es, P) && HasNameAt(es, n, i)
    ensures Reading(Appended(CONF_FILE, es, lines, |es|), n) ==
      if i < |es| && es[i].mask.updated && !Met(CONF_FILE, es[i], lines) then es[i].val else None
  {
    var w := if i < |es| && es[i].mask.updated && !Met(CONF_FILE, es[i], lines) then es[i].val else None;
    forall j: nat | j < |es|
      ensures RestIs(es, lines, n, i, w, j)
    {
      RestReads(es, lines, j, P, n);
    }
    AppendedReads(es, lines, |es|, n, i, w);
  }

  lemma RestReads(es: seq<Entry>, lines: seq<Str>, i: nat, P: Settings, n: Str)
    requires i < |es| && Ready(es, P)
    ensures Reading(Rest(CONF_FILE, lines, es[i]), n) ==
      if es[i].name == n && es[i].mask.updated && !Met(CONF_FILE, es[i], lines) then es[i].val else None
  {
    assert es[i] in es;
    if es[i].mask.updated {
      WrittenReads(es, i, P, n);
    }
  }

  /** The lines a save writes are read as what was updated, and otherwise as the lines before. */
  lemma SavedReads(es: seq<Entry>, lines: seq<Str>, P: Settings, n: Str)
    requires Ready(es, P) && forall line <- lines :: Own(line)
    ensures Reading(Saved(CONF_FILE, es, lines), n) ==
      if IsUpdated(es, n) then ValueIn(es, n) else Reading(lines, n)
  {
    var i := IndexOf(es, n);
    RewrittenReads(es, lines, P, n);
    IndexHasName(es, n);
    AllAppendedRead(es, lines, P, n, i);
    ReadingOfBoth(RewrittenAll(CONF_FILE, es, lines), Appended(CONF_FILE, es, lines, |es|), n);
    UpdatedIsAt(es, n);
    if i < |es| {
      assert Met(CONF_FILE, es[i], lines) <==> es[i].mask.updated && Named(lines, n);
    }
  }

  lemma UpdatedIsAt(es: seq<Entry>, n: Str)
    requires Unique(es)
    ensures IsUpdated(es, n) <==> UpdatedAt(es, n)
  {
    var i := IndexOf(es, n);
    if i < |es| {
      assert es[i] in es;
    }
    forall e <- es | e.name == n
      ensures i < |es| && e == es[i]
    {
      var j :| 0 <= j < |es| && es[j] == e;
      IndexIs(es, j);
    }
  }

  // ---------------------------------------------------------------------
  // The lines stay fine.
  // ---------------------------------------------------------------------

  lemma StoredNames(last: Str, name: Str, val: Str, t: string)
    requires PlainName(name) && Blank(last) && Clear(val) && t == last.text + Render(name, val).text
    ensures ParseLine(Str(t)) == Setting(name, val)
  {
    var s := Render(name, val).text;
    assert s[..|s|] == s;
    RenderedLength(name, val);
    BlankThenStart(last, name, val, |s|);
  }

  /** A stored line, behind blanks or not, is fine. */
  lemma StoredIsFine(last: Str, name: Str, val: Str, t: string, P: Settings)
    requires PlainName(name) && Blank(last) && t == last.text + Render(name, val).text && OneLine(Str(t))
    requires |last.text| < REACH && ReachedBehind(last, name, val)
    ensures Fine(Str(t), P)
  {
    StoredNames(last, name, val, t);
    RenderedLength(name, val);
    assert t[|t| - 1] == Render(name, val).text[|Render(name, val).text| - 1] == '\n';
    forall n | LineReading(Str(t), n).Some?
      ensures Names(CONF_FILE, Str(t), n)
    {
      StoredBehindBlanks(last, name, val, t, n);
    }
  }

  lemma RenderedIsFine(name: Str, val: Str, P: Settings)
    requires PlainName(name) && Storable(name, val)
    ensures Fine(Render(name, val), P)
  {
    RenderedIsOneLine(name, val);
    assert "" + Render(name, val).text == Render(name, val).text;
    StoredIsFine(Str(""), name, val, Render(name, val).text, P);
  }

  lemma WrittenIsFine(es: seq<Entry>, i: nat, P: Settings)
    requires Ready(es, P) && i < |es| && es[i].mask.updated
    ensures AllFine(Written(CONF_FILE, es[i]), P)
  {
    assert es[i] in es;
    if es[i].val.Some? {
      RenderedIsFine(es[i].name, es[i].val.value, P);
    }
  }

  lemma {:induction false} RewrittenAreFine(es: seq<Entry>, lines: seq<Str>, P: Settings)
    requires Ready(es, P) && AllFine(lines, P)
    ensures AllFine(RewrittenAll(CONF_FILE, es, lines), P)
  {
    if |lines| > 0 {
      var line := lines[|lines| - 1];
      RewrittenAreFine(es, lines[..|lines| - 1], P);
      if Mine(CONF_FILE, es, line) {
        WrittenIsFine(es, IndexOf(es, ParseLine(line).name), P);
      } else {
        NotMineStays(CONF_FILE, es, line);
      }
    }
  }

  lemma {:induction false} AppendedAreFine(es: seq<Entry>, lines: seq<Str>, k: nat, P: Settings)
    requires Ready(es, P) && k <= |es|
    ensures AllFine(Appended(CONF_FILE, es, lines, k), P)
  {
    if k > 0 {
      AppendedAreFine(es, lines, k - 1, P);
      if es[k - 1].mask.updated {
        WrittenIsFine(es, k - 1, P);
      }
    }
  }

  lemma TameIsOnOneLine(es: seq<Entry>, P: Settings)
    requires Ready(es, P)
    ensures OnOneLine(es)
  {
    assert forall name: Str :: PlainName(name) ==> '\n' !in name.text;
  }

  // ---------------------------------------------------------------------
  // Saving a text.
  // ---------------------------------------------------------------------

  function SavedText(es: seq<Entry>, text: string): string {
    Concat(Saved(CONF_FILE, es, Fgets(text, SAVE_BUF)))
  }

  /** A second save leaves any text as it is, character by character. */
  lemma SecondSaveKeepsText(es: seq<Entry>, text: string)
    ensures SavedText(Settled(es), text) == text
  {
    SecondSaveChangesNothing(CONF_FILE, es, Fgets(text, SAVE_BUF));
    FgetsKeepsText(text, SAVE_BUF);
  }

  ghost predicate AllShort(lines: seq<Str>) {
    forall line <- lines :: Short(line)
  }

  lemma ShortIsNotCut(text: string)
    requires AllShort(Split(text))
    ensures Fgets(text, SAVE_BUF) == Split(text)
  {
    FgetsSplitsExactly(text, SAVE_BUF);
  }

  /** Written for an entry that no line of the file names. */
  ghost predicate IsAppended(sx: Syntax, es: seq<Entry>, lines: seq<Str>, i: nat, line: Str) {
    && i < |es| && es[i].mask.updated && es[i].val.Some? && !Met(sx, es[i], lines)
    && line == sx.render(es[i].name, es[i].val.value)
  }

  lemma {:induction false} FirstAppended(sx: Syntax, es: seq<Entry>, lines: seq<Str>, k: nat) returns (i: nat)
    requires k <= |es| && |Appended(sx, es, lines, k)| > 0
    ensures IsAppended(sx, es, lines, i, Appended(sx, es, lines, k)[0])
  {
    var before, rest := Appended(sx, es, lines, k - 1), Rest(sx, lines, es[k - 1]);
    assert Appended(sx, es, lines, k) == before + rest;
    if |before| == 0 {
      RestIsAppended(sx, es, lines, k - 1);
      i := k - 1;
    } else {
      i := FirstAppended(sx, es, lines, k - 1);
      assert (before + rest)[0] == before[0];
    }
  }

  lemma RestIsAppended(sx: Syntax, es: seq<Entry>, lines: seq<Str>, i: nat)
    requires i < |es|
    ensures var rest := Rest(sx, lines, es[i]); |rest| > 0 ==> |rest| == 1 && IsAppended(sx, es, lines, i, rest[0])
  {
  }

  /** Two lines of a file become one when the first of them is not ended. */
  lemma Glue(front: seq<Str>, last: Str, first: Str, rest: seq<Str>) returns (glued: Str)
    requires AllEnded(front) && AllEnded(rest) && OneLine(last) && !Ended(last) && OneLine(first) && Ended(first)
    requires (forall l <- front :: OneLine(l)) && (forall l <- rest :: OneLine(l))
    ensures glued.text == last.text + first.text && Ended(glued)
    ensures Split(Concat(front + [last] + ([first] + rest))) == front + [glued] + rest
  {
    glued := Str(last.text + first.text);
    GluedIsOneLine(last.text, first.text);
    GluedText(front, last, first, rest, glued);
    assert forall line <- front + [glued] + rest :: Ended(line) && OneLine(line);
    AllSeparate(front + [glued] + rest);
    SeparateIsSplit(front + [glued] + rest);
  }

  lemma GluedIsOneLine(a: string, b: string)
    requires OneLine(Str(a)) && !Ended(Str(a)) && OneLine(Str(b)) && Ended(Str(b))
    ensures OneLine(Str(a + b)) && Ended(Str(a + b))
  {
    var s := a + b;
    assert a == a[..|a| - 1] + [a[|a| - 1]];
    assert s[..|s| - 1] == a + b[..|b| - 1];
  }

  lemma Regrouped(a: string, b: string, c: string, d: string, bc: string)
    requires bc == b + c
    ensures (a + b) + (c + d) == (a + bc) + d
  {
    assert a + (b + c) == (a + b) + c;
  }

  lemma GluedText(front: seq<Str>, last: Str, first: Str, rest: seq<Str>, glued: Str)
    requires glued.text == last.text + first.text
    ensures Concat(front + [last] + ([first] + rest)) == Concat(front + [glued] + rest)
  {
    ConcatBoth(front + [last], [first] + rest);
    ConcatBoth(front, [last]);
    ConcatBoth([first], rest);
    ConcatBoth(front + [glued], rest);
    ConcatBoth(front, [glued]);
    ConcatOne(last);
    ConcatOne(first);
    ConcatOne(glued);
    Regrouped(Concat(front), last.text, first.text, Concat(rest), glued.text);
  }

  lemma FirstAndRest(lines: seq<Str>)
    requires |lines| > 0
    ensures lines == [lines[0]] + lines[1..] && forall line <- lines[1..] :: line in lines
  {
  }

  lemma GluedReads(last: Str, name: Str, val: Str, glued: Str, n: Str)
    requires PlainName(name) && Blank(last) && glued.text == last.text + Render(name, val).text && OneLine(glued)
    requires |last.text| < REACH && ReachedBehind(last, name, val) && Storable(name, val) && OneLine(last)
    ensures LineReading(glued, n) == LineReading(Render(name, val), n) && LineReading(last, n) == None
  {
    StoredBehindBlanks(last, name, val, glued.text, n);
    StoredBehindBlanks(last, name, val, glued.text, name);
    StoredLineReads(name, val, n);
    BlankSaysNothing(last);
    FgetsOfOneLine(last.text, PARSE_BUF);
    ValueOfOne(CONF_FILE, last, n);
  }

  /** Lines written around an unended blank one are read as they are. */
  lemma BlankInTheMiddle(before: seq<Str>, last: Str, tail: seq<Str>, name: Str, val: Str, P: Settings, n: Str)
    requires AllEnded(before) && AllEnded(tail) && OneLine(last) && !Ended(last) && Blank(last)
    requires (forall l <- before :: OneLine(l)) && (forall l <- tail :: OneLine(l))
    requires PlainName(name) && Storable(name, val) && |last.text| < REACH && ReachedBehind(last, name, val)
    requires |tail| > 0 && tail[0] == Render(name, val) && AllFine(before, P) && AllFine(tail, P)
    ensures var lines := before + [last] + tail;
      Reading(Split(Concat(lines)), n) == Reading(lines, n) && AllFine(Split(Concat(lines)), P)
  {
    FirstAndRest(tail);
    var first, rest := tail[0], tail[1..];
    assert first in tail;
    var glued := Glue(before, last, first, rest);
    GluedIsOneLine(last.text, first.text);
    GluedReads(last, name, val, glued, n);
    StoredIsFine(last, name, val, glued.text, P);
    ReadingOfGlued(before, last, first, rest, glued, n);
    GluedAreFine(before, glued, rest, P);
  }

  lemma GluedAreFine(before: seq<Str>, glued: Str, rest: seq<Str>, P: Settings)
    requires AllFine(before, P) && Fine(glued, P) && AllFine(rest, P)
    ensures AllFine(before + [glued] + rest, P)
  {
  }

  lemma ReadingOfGlued(before: seq<Str>, last: Str, first: Str, rest: seq<Str>, glued: Str, n: Str)
    requires LineReading(glued, n) == LineReading(first, n) && LineReading(last, n) == None
    ensures Reading(before + [glued] + rest, n) == Reading(before + [last] + ([first] + rest), n)
  {
    ReadingOfBoth(before + [glued], rest, n);
    ReadingOfMore(before + [glued], before, glued, n);
    ReadingOfBoth(before + [last], [first] + rest, n);
    ReadingOfMore(before + [last], before, last, n);
    ReadingOfBoth([first], rest, n);
    ReadingOfOne(first, n);
  }

  lemma LastIsBlank(es: seq<Entry>, last: Str, i: nat, P: Settings)
    requires Ready(es, P) && i < |es| && es[i].mask.updated && es[i].val.Some?
    requires Fine(last, P) && !Ended(last) && !Mine(CONF_FILE, es, last)
    ensures Blank(last) && |last.text| < REACH && ReachedBehind(last, es[i].name, es[i].val.value)
  {
    assert es[i] in es;
    IndexIs(es, i);
    assert (es[i].name, es[i].val.value) in P;
  }

  lemma NotAsWritten(es: seq<Entry>, text: string, front: seq<Str>, last: Str)
    requires OnOneLine(es) && Split(text) == front + [last]
    requires Split(Concat(Saved(CONF_FILE, es, Split(text)))) != Saved(CONF_FILE, es, Split(text))
    ensures AllEnded(front) && !Ended(last) && !Mine(CONF_FILE, es, last)
    ensures |Appended(CONF_FILE, es, Split(text), |es|)| > 0
  {
    SplitSeparates(text);
    assert forall i :: 0 <= i < |front| ==> front[i] == Split(text)[i];
    SavedFromLast(es, Split(text), front, last);
  }

  /** The case in which a line is written behind an unended one: that one is blank. */
  lemma SavedBehindBlank(es: seq<Entry>, text: string, front: seq<Str>, last: Str, P: Settings, n: Str)
    requires Ready(es, P) && OnOneLine(es) && AllFine(Split(text), P) && Split(text) == front + [last]
    requires AllEnded(front) && !Ended(last) && !Mine(CONF_FILE, es, last)
    requires |Appended(CONF_FILE, es, Split(text), |es|)| > 0
    ensures var saved := Saved(CONF_FILE, es, Split(text));
      Reading(Split(Concat(saved)), n) == Reading(saved, n) && AllFine(Split(Concat(saved)), P)
  {
    SplitSeparates(text);
    assert last in Split(text) && forall line <- front :: line in Split(text);
    AllRewrittenAreEnded(es, front);
    AppendedAreEnded(es, Split(text), |es|);
    RewrittenAreFine(es, front, P);
    AppendedAreFine(es, Split(text), |es|, P);
    NotMineStays(CONF_FILE, es, last);
    SavedInParts(CONF_FILE, es, Split(text), front, last);
    var i := FirstAppended(CONF_FILE, es, Split(text), |es|);
    assert es[i] in es;
    LastIsBlank(es, last, i, P);
    BlankInTheMiddle(RewrittenAll(CONF_FILE, es, front), last, Appended(CONF_FILE, es, Split(text), |es|),
                     es[i].name, es[i].val.value, P, n);
  }

  lemma SavedLinesRead(es: seq<Entry>, text: string, lines: seq<Str>, P: Settings, n: Str)
    requires Ready(es, P) && AllFine(lines, P) && lines == Split(text)
    ensures var saved := Saved(CONF_FILE, es, lines);
      Reading(Split(Concat(saved)), n) == Reading(saved, n) && AllFine(Split(Concat(saved)), P)
  {
    TameIsOnOneLine(es, P);
    if Split(Concat(Saved(CONF_FILE, es, lines))) == Saved(CONF_FILE, es, lines) {
      RewrittenAreFine(es, lines, P);
      AppendedAreFine(es, lines, |es|, P);
    } else if |lines| == 0 {
      SavedFromNothing(es);
    } else {
      FrontAndLast(lines);
      NotAsWritten(es, text, lines[..|lines| - 1], lines[|lines| - 1]);
      SavedBehindBlank(es, text, lines[..|lines| - 1], lines[|lines| - 1], P, n);
    }
  }

  lemma FineAreShort(lines: seq<Str>, P: Settings)
    requires AllFine(lines, P)
    ensures AllShort(lines) && forall line <- lines :: Own(line)
  {
  }

  /** The law of one save, from text to text: the new text is read as what was updated, and otherwise as
      the old one was; and its lines are as fine as those of the old one. */
  lemma SavedTextReads(es: seq<Entry>, text: string, P: Settings, n: Str)
    requires Ready(es, P) && AllFine(Split(text), P)
    ensures TextReading(SavedText(es, text), n) == if IsUpdated(es, n) then ValueIn(es, n) else TextReading(text, n)
    ensures AllFine(Split(SavedText(es, text)), P)
  {
    FineAreShort(Split(text), P);
    ShortIsNotCut(text);
    SavedLinesRead(es, text, Split(text), P, n);
    SavedReads(es, Split(text), P, n);
    TextIsReadByLines(text, n);
    TextIsReadByLines(SavedText(es, text), n);
  }
}
