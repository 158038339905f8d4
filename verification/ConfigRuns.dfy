/** Runs of updates and saves on a file text: parsed at first, saved any number of times, and read
    again at last. */
module ConfigRuns {
  import opened ConfigStore
  import opened ConfigLine
  import opened ConfigPieces
  import opened ConfigText
  import opened ConfigReading
  import opened ConfigSaves
  import opened CText
  import opened Common

  datatype TextState = TextState(es: seq<Entry>, text: string)

  function PerformText(st: TextState, op: Op): TextState {
    match op
    case Set(_, _) => TextState(Updated(st.es, op), st.text)
    case Delete(_) => TextState(Updated(st.es, op), st.text)
    case Save => TextState(Settled(st.es), SavedText(st.es, st.text))
    case FailedSave => TextState(Settled(st.es), st.text)
  }

  function PerformTextAll(st: TextState, ops: seq<Op>): TextState {
    if |ops| == 0 then st else PerformText(PerformTextAll(st, ops[..|ops| - 1]), ops[|ops| - 1])
  }

  /** The settings of a run are among these; it may delete any name, and save at any time. */
  ghost predicate Sets(ops: seq<Op>, P: Settings) {
    forall op <- ops :: op.Set? ==> (op.name, op.val) in P
  }

  ghost predicate Orderly(st: TextState, P: Settings) {
    Ready(st.es, P) && AllFine(Split(st.text), P)
  }

  /** What the text will say of a name after the next save. */
  ghost function DueText(st: TextState, n: Str): Option<Str> {
    if IsUpdated(st.es, n) then ValueIn(st.es, n) else TextReading(st.text, n)
  }

  lemma UpdatedIsReady(es: seq<Entry>, op: Op, P: Settings)
    requires (op.Set? || op.Delete?) && Ready(es, P) && (op.Set? ==> (op.name, op.val) in P)
    ensures Ready(Updated(es, op), P)
  {
    AddedSets(es, op.name, if op.Set? then Some(op.val) else None, UPDATED, op.name);
  }

  lemma SettledIsReady(es: seq<Entry>, P: Settings)
    requires Ready(es, P)
    ensures Ready(Settled(es), P) && forall n :: !IsUpdated(Settled(es), n)
  {
  }

  lemma TextUpdateSays(st: TextState, op: Op, P: Settings, n: Str)
    requires Orderly(st, P) && (op.Set? || op.Delete?) && (op.Set? ==> (op.name, op.val) in P)
    ensures Orderly(PerformText(st, op), P)
    ensures DueText(PerformText(st, op), n) == Said(LastWord([op], n), DueText(st, n))
  {
    var val := if op.Set? then Some(op.val) else None;
    UpdatedIsReady(st.es, op, P);
    AddedSets(st.es, op.name, val, UPDATED, n);
    AddedIsUpdated(st.es, op.name, val, n);
    assert [op][..0] == [];
  }

  lemma TextSaveSays(st: TextState, P: Settings, n: Str)
    requires Orderly(st, P)
    ensures var st' := PerformText(st, Save);
      Orderly(st', P) && DueText(st', n) == TextReading(st'.text, n) == DueText(st, n)
  {
    SettledIsReady(st.es, P);
    SavedTextReads(st.es, st.text, P, n);
  }

  lemma TextStepSays(st: TextState, op: Op, P: Settings, n: Str)
    requires Sets([op], P) && Orderly(st, P)
    ensures var st', due, file := PerformText(st, op), DueText(st, n), TextReading(st.text, n);
      && Orderly(st', P)
      && DueText(st', n) == (if op.FailedSave? then file else Said(LastWord([op], n), due))
      && TextReading(st'.text, n) == (if op.Save? then due else file)
  {
    assert op in [op] && [op][..0] == [];
    if op.Save? {
      TextSaveSays(st, P, n);
    } else if op.FailedSave? {
      SettledIsReady(st.es, P);
    } else {
      TextUpdateSays(st, op, P, n);
    }
  }

  lemma {:induction false} TextRunSays(st: TextState, ops: seq<Op>, P: Settings, n: Str)
    requires Sets(ops, P) && Orderly(st, P) && !IsUpdated(st.es, n)
    ensures var st', file := PerformTextAll(st, ops), TextReading(st.text, n);
      && Orderly(st', P)
      && DueText(st', n) == Said(DueWord(ops, n), file)
      && TextReading(st'.text, n) == Said(FileWord(ops, n), file)
  {
    if |ops| > 0 {
      TextRunSays(st, ops[..|ops| - 1], P, n);
      TextStepSays(PerformTextAll(st, ops[..|ops| - 1]), ops[|ops| - 1], P, n);
      LastWordOfMore(ops, n, TextReading(st.text, n));
    }
  }

  function OpenedText(global: seq<Entry>, filter: Str -> bool, skip: Str -> bool, text: string): seq<Entry> {
    Opened(CONF_FILE, global, filter, Fgets(text, PARSE_BUF), skip)
  }

  /** The text after opening a container's file over the global entries, a run and a save. */
  function TextAfter(global: seq<Entry>, filter: Str -> bool, skip: Str -> bool, text: string, ops: seq<Op>): string {
    var st := PerformTextAll(TextState(OpenedText(global, filter, skip, text), text), ops);
    SavedText(st.es, st.text)
  }

  /** The new text is read, for every name, as what the run left due for it, or else as the old text was. */
  ghost predicate ReadsAs(global: seq<Entry>, filter: Str -> bool, skip: Str -> bool, text: string, ops: seq<Op>) {
    forall n :: TextReading(TextAfter(global, filter, skip, text, ops), n)
      == Said(DueWord(ops, n), TextReading(text, n))
  }

  lemma OpenedIsClean(global: seq<Entry>, filter: Str -> bool, skip: Str -> bool, text: string)
    requires Unique(global)
    ensures var es := OpenedText(global, filter, skip, text);
      Unique(es) && NoneStored(es) && forall e <- es :: !e.mask.updated
  {
    var lines := Fgets(text, PARSE_BUF);
    MergedUnmarked(global, filter);
    ParsingUnmarked(CONF_FILE, Merged([], global, filter), lines, skip);
    OpenedIsSound(CONF_FILE, global, filter, lines, skip, Str(""));
  }

  lemma FineRunReads(global: seq<Entry>, filter: Str -> bool, skip: Str -> bool, text: string, P: Settings,
                     ops: seq<Op>)
    requires Unique(global) && AllPlain(P) && AllStorable(P) && AllFine(Split(text), P) && Sets(ops, P)
    ensures ReadsAs(global, filter, skip, text, ops)
  {
    var start := TextState(OpenedText(global, filter, skip, text), text);
    OpenedIsClean(global, filter, skip, text);
    assert Ready(start.es, P);
    var st := PerformTextAll(start, ops);
    forall n
      ensures TextReading(SavedText(st.es, st.text), n) == Said(DueWord(ops, n), TextReading(text, n))
    {
      assert !IsUpdated(start.es, n);
      TextRunSays(start, ops, P, n);
      SavedTextReads(st.es, st.text, P, n);
    }
  }

  // ---------------------------------------------------------------------
  // A store with one update.
  // ---------------------------------------------------------------------

  /** The store has one update, entry j, of this name. */
  ghost predicate Only(es: seq<Entry>, j: nat, n: Str, val: Option<Str>) {
    && Unique(es) && NoneStored(es)
    && j < |es| && es[j].name == n && es[j].mask.updated && es[j].val == val
    && forall i :: 0 <= i < |es| && i != j ==> !es[i].mask.updated
  }

  lemma UpdatedIsOnly(es: seq<Entry>, op: Op)
    requires (op.Set? || op.Delete?) && Unique(es) && NoneStored(es) && forall e <- es :: !e.mask.updated
    ensures Only(Updated(es, op), IndexOf(es, op.name), op.name, if op.Set? then Some(op.val) else None)
  {
    AddedSets(es, op.name, if op.Set? then Some(op.val) else None, UPDATED, op.name);
  }

  ghost predicate Unnamed(sx: Syntax, lines: seq<Str>, n: Str) {
    forall line <- lines :: !Names(sx, line, n)
  }

  function WrittenAnew(sx: Syntax, n: Str, val: Option<Str>): seq<Str> {
    if val.Some? then [sx.render(n, val.value)] else []
  }

  lemma OnlyIsMine(sx: Syntax, es: seq<Entry>, j: nat, line: Str, n: Str, val: Option<Str>)
    requires Only(es, j, n, val)
    ensures Mine(sx, es, line) <==> Names(sx, line, n)
  {
  }

  lemma WrittenFor(sx: Syntax, es: seq<Entry>, j: nat, line: Str, n: Str, val: Option<Str>)
    requires Only(es, j, n, val) && Names(sx, line, n)
    ensures Rewritten(sx, es, line) == WrittenAnew(sx, n, val)
  {
    IndexIs(es, j);
    assert Rewritten(sx, es, line) == Written(sx, es[j]);
  }

  lemma RestOnly(sx: Syntax, es: seq<Entry>, j: nat, lines: seq<Str>, i: nat, n: Str, val: Option<Str>)
    requires Only(es, j, n, val) && i < |es|
    ensures Rest(sx, lines, es[i]) ==
      if i == j && Unnamed(sx, lines, n) then WrittenAnew(sx, n, val) else []
  {
    if i == j {
      assert es[i] in es;
      assert Met(sx, es[i], lines) <==> !Unnamed(sx, lines, n);
    }
  }

  lemma {:induction false} NoneAppended(sx: Syntax, es: seq<Entry>, lines: seq<Str>, k: nat)
    requires k <= |es| && forall i :: 0 <= i < k ==> |Rest(sx, lines, es[i])| == 0
    ensures Appended(sx, es, lines, k) == []
  {
    if k > 0 {
      NoneAppended(sx, es, lines, k - 1);
    }
  }

  lemma {:induction false} OneAppended(sx: Syntax, es: seq<Entry>, lines: seq<Str>, k: nat, j: nat)
    requires j < k <= |es| && forall i :: 0 <= i < k && i != j ==> |Rest(sx, lines, es[i])| == 0
    ensures Appended(sx, es, lines, k) == Rest(sx, lines, es[j])
  {
    if k - 1 == j {
      NoneAppended(sx, es, lines, j);
    } else {
      OneAppended(sx, es, lines, k - 1, j);
    }
  }

  lemma AppendedOnly(sx: Syntax, es: seq<Entry>, j: nat, lines: seq<Str>, n: Str, val: Option<Str>)
    requires Only(es, j, n, val)
    ensures Appended(sx, es, lines, |es|) == if Unnamed(sx, lines, n) then WrittenAnew(sx, n, val) else []
  {
    forall i | 0 <= i < |es| && i != j
      ensures |Rest(sx, lines, es[i])| == 0
    {
      RestOnly(sx, es, j, lines, i, n, val);
    }
    RestOnly(sx, es, j, lines, j, n, val);
    OneAppended(sx, es, lines, |es|, j);
  }

  lemma UnnamedIsKept(sx: Syntax, es: seq<Entry>, j: nat, lines: seq<Str>, n: Str, val: Option<Str>)
    requires Only(es, j, n, val) && Unnamed(sx, lines, n)
    ensures RewrittenAll(sx, es, lines) == lines
  {
    forall line <- lines
      ensures !Mine(sx, es, line)
    {
      OnlyIsMine(sx, es, j, line, n, val);
    }
    NothingOfMine(sx, es, lines);
  }

  lemma LastStays(sx: Syntax, es: seq<Entry>, j: nat, lines: seq<Str>, front: seq<Str>, last: Str, n: Str)
    requires Only(es, j, n, None) && lines == front + [last] && !Names(sx, last, n)
    ensures Saved(sx, es, lines) == RewrittenAll(sx, es, front) + [last]
  {
    AppendedOnly(sx, es, j, lines, n, None);
    SavedInParts(sx, es, lines, front, last);
    OnlyIsMine(sx, es, j, last, n, None);
  }

  lemma NoneIsWritten(es: seq<Entry>, j: nat, n: Str)
    requires Only(es, j, n, None)
    ensures OnOneLine(es)
  {
  }

  /** What a save leaves: lines it wrote for n, and old lines that do not name it. */
  ghost predicate Remade(sx: Syntax, after: seq<Str>, all: seq<Str>, n: Str, val: Option<Str>) {
    forall line <- after :: (val.Some? && line == sx.render(n, val.value)) || (line in all && !Names(sx, line, n))
  }

  lemma OneRemade(sx: Syntax, line: Str, all: seq<Str>, n: Str, val: Option<Str>)
    requires (val.Some? && line == sx.render(n, val.value)) || (line in all && !Names(sx, line, n))
    ensures Remade(sx, [line], all, n, val)
  {
  }

  lemma LineRemade(sx: Syntax, es: seq<Entry>, j: nat, line: Str, all: seq<Str>, n: Str, val: Option<Str>)
    requires Only(es, j, n, val) && line in all
    ensures Remade(sx, Rewritten(sx, es, line), all, n, val)
  {
    OnlyIsMine(sx, es, j, line, n, val);
    if Names(sx, line, n) {
      WrittenFor(sx, es, j, line, n, val);
      if val.Some? {
        OneRemade(sx, sx.render(n, val.value), all, n, val);
      }
    } else {
      NotMineStays(sx, es, line);
      OneRemade(sx, line, all, n, val);
    }
  }

  lemma BothRemade(sx: Syntax, a: seq<Str>, b: seq<Str>, all: seq<Str>, n: Str, val: Option<Str>)
    requires Remade(sx, a, all, n, val) && Remade(sx, b, all, n, val)
    ensures Remade(sx, a + b, all, n, val)
  {
    forall line <- a + b
      ensures (val.Some? && line == sx.render(n, val.value)) || (line in all && !Names(sx, line, n))
    {
      assert line in a || line in b;
    }
  }

  lemma {:induction false} AllRemade(sx: Syntax, es: seq<Entry>, j: nat, lines: seq<Str>, all: seq<Str>, n: Str,
                                     val: Option<Str>)
    requires Only(es, j, n, val) && forall line <- lines :: line in all
    ensures Remade(sx, RewrittenAll(sx, es, lines), all, n, val)
  {
    if |lines| > 0 {
      var front, line := lines[..|lines| - 1], lines[|lines| - 1];
      AllRemade(sx, es, j, front, all, n, val);
      LineRemade(sx, es, j, line, all, n, val);
      BothRemade(sx, RewrittenAll(sx, es, front), Rewritten(sx, es, line), all, n, val);
    }
  }

  lemma SavedRemade(sx: Syntax, es: seq<Entry>, j: nat, lines: seq<Str>, n: Str, val: Option<Str>)
    requires Only(es, j, n, val)
    ensures Remade(sx, Saved(sx, es, lines), lines, n, val)
  {
    AllRemade(sx, es, j, lines, lines, n, val);
    AppendedOnly(sx, es, j, lines, n, val);
    if val.Some? {
      OneRemade(sx, sx.render(n, val.value), lines, n, val);
    }
    BothRemade(sx, RewrittenAll(sx, es, lines), Appended(sx, es, lines, |es|), lines, n, val);
  }

  lemma {:induction false} KeptInPlace(sx: Syntax, es: seq<Entry>, lines: seq<Str>, line: Str)
    requires line in lines && !Mine(sx, es, line)
    ensures line in RewrittenAll(sx, es, lines)
  {
    var last := lines[|lines| - 1];
    if line == last {
      NotMineStays(sx, es, last);
    } else {
      FrontAndLast(lines);
      KeptInPlace(sx, es, lines[..|lines| - 1], line);
    }
  }

  lemma {:induction false} NeverRead(lines: seq<Str>, n: Str, v: Str)
    requires forall line <- lines :: LineReading(line, n) != Some(v)
    ensures Reading(lines, n) != Some(v)
  {
    if |lines| > 0 {
      NeverRead(lines[..|lines| - 1], n, v);
    }
  }

  lemma {:induction false} SomethingRead(lines: seq<Str>, line: Str, n: Str)
    requires line in lines && LineReading(line, n).Some?
    ensures Reading(lines, n).Some?
  {
    if LineReading(lines[|lines| - 1], n).None? {
      FrontAndLast(lines);
      SomethingRead(lines[..|lines| - 1], line, n);
    }
  }

  ghost predicate AllOwn(lines: seq<Str>) {
    forall line <- lines :: Own(line)
  }

  // ---------------------------------------------------------------------
  // A line that is read in pieces as another key.
  // ---------------------------------------------------------------------

  /** Nothing that is written for a deletion is glued to anything. */
  lemma DeletedAsWritten(es: seq<Entry>, j: nat, text: string, n: Str)
    requires Only(es, j, n, None) && AllShort(Split(text))
    ensures Split(SavedText(es, text)) == Saved(CONF_FILE, es, Split(text))
  {
    ShortIsNotCut(text);
    AppendedOnly(CONF_FILE, es, j, Split(text), n, None);
    NoneIsWritten(es, j, n);
    SavedTextExactly(es, text, Split(text));
  }

  lemma StaysAfterDelete(es: seq<Entry>, j: nat, text: string, line: Str, n: Str)
    requires Only(es, j, n, None) && AllShort(Split(text)) && line in Split(text)
    requires LineReading(line, n).Some? && !Names(CONF_FILE, line, n)
    ensures TextReading(SavedText(es, text), n).Some?
  {
    DeletedAsWritten(es, j, text, n);
    OnlyIsMine(CONF_FILE, es, j, line, n, None);
    KeptInPlace(CONF_FILE, es, Split(text), line);
    SomethingRead(Saved(CONF_FILE, es, Split(text)), line, n);
    TextIsReadByLines(SavedText(es, text), n);
  }

  lemma Unread(global: seq<Entry>, filter: Str -> bool, skip: Str -> bool, text: string, ops: seq<Op>, n: Str,
               w: Option<Str>)
    requires Said(DueWord(ops, n), TextReading(text, n)) == w
    requires TextReading(TextAfter(global, filter, skip, text, ops), n) != w
    ensures !ReadsAs(global, filter, skip, text, ops)
  {
  }

  lemma OneStep(st: TextState, op: Op)
    ensures PerformTextAll(st, [op]) == PerformText(st, op)
  {
    assert |[op][..0]| == 0;
  }

  lemma LastIsSet(ops: seq<Op>, n: Str, v: Str)
    requires |ops| > 0 && ops[|ops| - 1] == Set(n, v)
    ensures DueWord(ops, n) == SetTo(v)
  {
  }

  lemma LastIsDeleted(ops: seq<Op>, n: Str)
    requires |ops| > 0 && ops[|ops| - 1] == Delete(n)
    ensures DueWord(ops, n) == Deleted
  {
  }

  lemma StrayKeyRunFails(global: seq<Entry>, filter: Str -> bool, skip: Str -> bool, text: string, line: Str, n: Str)
    requires Unique(global) && AllShort(Split(text)) && line in Split(text)
    requires LineReading(line, n).Some? && !Names(CONF_FILE, line, n)
    ensures !ReadsAs(global, filter, skip, text, [Delete(n)])
  {
    var es := OpenedText(global, filter, skip, text);
    OpenedIsClean(global, filter, skip, text);
    UpdatedIsOnly(es, Delete(n));
    StaysAfterDelete(Updated(es, Delete(n)), IndexOf(es, n), text, line, n);
    OneStep(TextState(es, text), Delete(n));
    LastIsDeleted([Delete(n)], n);
    Unread(global, filter, skip, text, [Delete(n)], n, None);
  }

  // ---------------------------------------------------------------------
  // A setting that does not come back.
  // ---------------------------------------------------------------------

  lemma NeverReadAgain(n: Str, v: Str, after: seq<Str>, lines: seq<Str>)
    requires PlainName(n) && !Storable(n, v) && '\n' !in v.text && AllOwn(lines)
    requires Remade(CONF_FILE, after, lines, n, Some(v))
    ensures Reading(after, n) != Some(v)
  {
    forall line <- after
      ensures LineReading(line, n) != Some(v)
    {
      if line == Render(n, v) {
        StoredLineReads(n, v, n);
      }
    }
    NeverRead(after, n, v);
  }

  lemma ReachedFromFarther(last: Str, n: Str, v: Str)
    requires ReachedBehind(last, n, v) && '\n' !in v.text
    ensures Storable(n, v)
  {
  }

  lemma UnstorableAsWritten(es: seq<Entry>, j: nat, text: string, lines: seq<Str>, n: Str, v: Str, P: Settings)
    requires Only(es, j, n, Some(v)) && PlainName(n) && !Storable(n, v) && '\n' !in v.text && (n, v) in P
    requires AllFine(lines, P) && lines == Split(text)
    ensures var saved := Saved(CONF_FILE, es, lines); Split(Concat(saved)) == saved
  {
    assert OnOneLine(es) by {
      assert PlainName(n) ==> '\n' !in n.text;
    }
    if |lines| > 0 {
      var last := lines[|lines| - 1];
      assert Fine(last, P);
      OnlyIsMine(CONF_FILE, es, j, last, n, Some(v));
      if !Ended(last) && !Names(CONF_FILE, last, n) {
        ReachedFromFarther(last, n, v);
      }
    }
    SavedTextExactly(es, text, lines);
  }

  lemma UnstorableIsNotSaved(es: seq<Entry>, j: nat, text: string, n: Str, v: Str, P: Settings)
    requires Only(es, j, n, Some(v)) && PlainName(n) && !Storable(n, v) && (n, v) in P && AllFine(Split(text), P)
    ensures TextReading(SavedText(es, text), n) != Some(v)
  {
    if '\n' in v.text {
      TextHasNoNewlineValue(SavedText(es, text), PARSE_BUF, n);
    } else {
      FineAreShort(Split(text), P);
      ShortIsNotCut(text);
      UnstorableAsWritten(es, j, text, Split(text), n, v, P);
      SavedRemade(CONF_FILE, es, j, Split(text), n, Some(v));
      NeverReadAgain(n, v, Saved(CONF_FILE, es, Split(text)), Split(text));
      TextIsReadByLines(SavedText(es, text), n);
    }
  }

  lemma UnstorableRunFails(global: seq<Entry>, filter: Str -> bool, skip: Str -> bool, text: string, n: Str, v: Str,
                           P: Settings)
    requires Unique(global) && PlainName(n) && !Storable(n, v) && (n, v) in P && AllFine(Split(text), P)
    ensures !ReadsAs(global, filter, skip, text, [Set(n, v)])
  {
    var es := OpenedText(global, filter, skip, text);
    OpenedIsClean(global, filter, skip, text);
    UpdatedIsOnly(es, Set(n, v));
    UnstorableIsNotSaved(Updated(es, Set(n, v)), IndexOf(es, n), text, n, v, P);
    OneStep(TextState(es, text), Set(n, v));
    LastIsSet([Set(n, v)], n, v);
    Unread(global, filter, skip, text, [Set(n, v)], n, Some(v));
  }

  // ---------------------------------------------------------------------
  // A last line that harms what is written behind it.
  // ---------------------------------------------------------------------

  /** The line is not ended, and a setting is not read behind it. */
  predicate Spoils(last: Str, n: Str, v: Str) {
    !Ended(last) && !Names(CONF_FILE, last, n) && (Blank(last) ==> !ReachedBehind(last, n, v))
  }

  predicate EndsBadly(lines: seq<Str>, n: Str, v: Str) {
    |lines| > 0 && Spoils(lines[|lines| - 1], n, v)
  }

  lemma NotReadBehind(last: Str, n: Str, v: Str, t: string)
    requires PlainName(n) && !Names(CONF_FILE, last, n) && (Blank(last) ==> !ReachedBehind(last, n, v))
    requires |last.text| < REACH && t == last.text + Render(n, v).text && OneLine(Str(t))
    ensures LineReading(Str(t), n) != Some(v)
  {
    var s := Render(n, v).text;
    if Blank(last) {
      StoredBehindBlanks(last, n, v, t, n);
    } else {
      FgetsOfOneLine(t, PARSE_BUF);
      if |t| < PARSE_BUF {
        GluedToOther(last, n, v, s);
        ValueOfOne(CONF_FILE, Str(t), n);
      } else {
        CutBehindOther(last, n, v, t, REACH - |last.text|);
      }
    }
  }

  lemma CutBehindOther(last: Str, n: Str, v: Str, t: string, k: nat)
    requires PlainName(n) && !Blank(last) && !Names(CONF_FILE, last, n) && k == REACH - |last.text| && k > 0
    requires t == last.text + Render(n, v).text && OneLine(Str(t)) && |t| >= PARSE_BUF
    ensures LineReading(Str(t), n) != Some(v)
  {
    var s := Render(n, v).text;
    CutIntoTwo(last.text, s, t, k, n);
    GluedToOther(last, n, v, s[..k]);
    TailPiecesNeverRead(n, v, k, s[k..], PARSE_BUF);
  }

  lemma UnnamedReadsNothing(lines: seq<Str>, n: Str, v: Str)
    requires AllOwn(lines) && Unnamed(CONF_FILE, lines, n)
    ensures Reading(lines, n) != Some(v)
  {
    NeverRead(lines, n, v);
  }

  /** A setting written behind such a line is lost. */
  lemma LostBehindLast(es: seq<Entry>, j: nat, text: string, n: Str, v: Str)
    requires Only(es, j, n, Some(v)) && PlainName(n) && EndsBadly(Split(text), n, v)
    requires Unnamed(CONF_FILE, Split(text), n) && AllOwn(Split(text)) && AllShort(Split(text))
    ensures TextReading(SavedText(es, text), n) != Some(v)
  {
    if '\n' in v.text {
      TextHasNoNewlineValue(SavedText(es, text), PARSE_BUF, n);
    } else {
      var lines := Split(text);
      var front, last := lines[..|lines| - 1], lines[|lines| - 1];
      ShortIsNotCut(text);
      UnnamedIsKept(CONF_FILE, es, j, lines, n, Some(v));
      AppendedOnly(CONF_FILE, es, j, lines, n, Some(v));
      SplitSeparates(text);
      LostBehind(lines, front, last, n, v);
      TextIsReadByLines(SavedText(es, text), n);
    }
  }

  lemma LostBehind(lines: seq<Str>, front: seq<Str>, last: Str, n: Str, v: Str)
    requires PlainName(n) && '\n' !in v.text
    requires |lines| > 0 && front == lines[..|lines| - 1] && last == lines[|lines| - 1]
    requires EndsBadly(lines, n, v) && Unnamed(CONF_FILE, lines, n) && AllOwn(lines) && AllShort(lines)
    requires Separate(lines) && forall line <- lines :: OneLine(line)
    ensures Reading(Split(Concat(lines + [Render(n, v)])), n) != Some(v)
  {
    FrontAndLast(lines);
    assert last in lines && forall i :: 0 <= i < |front| ==> front[i] == lines[i];
    assert lines + [Render(n, v)] == front + [last] + ([Render(n, v)] + []);
    RenderedIsOneLine(n, v);
    var glued := Glue(front, last, Render(n, v), []);
    GluedIsOneLine(last.text, Render(n, v).text);
    NotReadBehind(last, n, v, glued.text);
    UnnamedReadsNothing(front, n, v);
    assert front + [glued] + [] == front + [glued];
    ReadingOfMore(front + [glued], front, glued, n);
  }

  /** What deleting a name leaves of a text that ends badly. */
  lemma DeletedEndsBadly(es: seq<Entry>, j: nat, text: string, n: Str, v: Str)
    requires Only(es, j, n, None) && EndsBadly(Split(text), n, v) && AllShort(Split(text)) && AllOwn(Split(text))
    ensures var after := Split(SavedText(es, text));
      EndsBadly(after, n, v) && Unnamed(CONF_FILE, after, n) && AllOwn(after) && AllShort(after)
  {
    DeletedAsWritten(es, j, text, n);
    DeletedLines(es, j, Split(text), n, v);
  }

  lemma DeletedLines(es: seq<Entry>, j: nat, lines: seq<Str>, n: Str, v: Str)
    requires Only(es, j, n, None) && EndsBadly(lines, n, v) && AllShort(lines) && AllOwn(lines)
    ensures var after := Saved(CONF_FILE, es, lines);
      EndsBadly(after, n, v) && Unnamed(CONF_FILE, after, n) && AllOwn(after) && AllShort(after)
  {
    var front, last := lines[..|lines| - 1], lines[|lines| - 1];
    SavedRemade(CONF_FILE, es, j, lines, n, None);
    FrontAndLast(lines);
    LastStays(CONF_FILE, es, j, lines, front, last, n);
    EndsAlike(RewrittenAll(CONF_FILE, es, front), lines, last, n, v);
    RemadeOfNone(Saved(CONF_FILE, es, lines), lines, n);
  }

  lemma EndsAlike(front: seq<Str>, lines: seq<Str>, last: Str, n: Str, v: Str)
    requires EndsBadly(lines, n, v) && last == lines[|lines| - 1]
    ensures EndsBadly(front + [last], n, v)
  {
  }

  lemma RemadeOfNone(after: seq<Str>, lines: seq<Str>, n: Str)
    requires Remade(CONF_FILE, after, lines, n, None) && AllShort(lines) && AllOwn(lines)
    ensures Unnamed(CONF_FILE, after, n) && AllOwn(after) && AllShort(after)
  {
  }

  /** A name deleted, saved, set again and saved. */
  function SetAnew(n: Str, v: Str): seq<Op> {
    [Delete(n), Save, Set(n, v)]
  }

  lemma OneMore(st: TextState, ops: seq<Op>, op: Op)
    ensures PerformTextAll(st, ops + [op]) == PerformText(PerformTextAll(st, ops), op)
  {
    assert (ops + [op])[..|ops|] == ops;
  }

  lemma ThreeSteps(st: TextState, a: Op, b: Op, c: Op)
    ensures PerformTextAll(st, [a, b, c]) == PerformText(PerformText(PerformText(st, a), b), c)
  {
    OneMore(st, [a, b], c);
    OneMore(st, [a], b);
    OneMore(st, [], a);
    assert [] + [a] == [a] && [a] + [b] == [a, b] && [a, b] + [c] == [a, b, c];
  }

  lemma BadEndRunFails(global: seq<Entry>, filter: Str -> bool, skip: Str -> bool, text: string, n: Str, v: Str)
    requires Unique(global) && PlainName(n) && EndsBadly(Split(text), n, v)
    requires AllShort(Split(text)) && AllOwn(Split(text))
    ensures !ReadsAs(global, filter, skip, text, SetAnew(n, v))
  {
    var es := OpenedText(global, filter, skip, text);
    ThreeSteps(TextState(es, text), Delete(n), Save, Set(n, v));
    LastIsSet(SetAnew(n, v), n, v);
    OpenedIsClean(global, filter, skip, text);
    UpdatedIsOnly(es, Delete(n));
    var es1 := Updated(es, Delete(n));
    DeletedEndsBadly(es1, IndexOf(es, n), text, n, v);
    SettledKeeps(es1, n);
    UpdatedIsOnly(Settled(es1), Set(n, v));
    LostBehindLast(Updated(Settled(es1), Set(n, v)), IndexOf(Settled(es1), n), SavedText(es1, text), n, v);
    Unread(global, filter, skip, text, SetAnew(n, v), n, Some(v));
  }

  // ---------------------------------------------------------------------
  // The law of all runs.
  // ---------------------------------------------------------------------

  lemma UnendedIsLast(lines: seq<Str>, line: Str, n: Str, v: Str)
    requires Separate(lines) && line in lines && Spoils(line, n, v)
    ensures EndsBadly(lines, n, v)
  {
    var i :| 0 <= i < |lines| && lines[i] == line;
    assert i == |lines| - 1;
  }

  lemma HarmedSetting(line: Str, P: Settings) returns (p: (Str, Str))
    requires !Harmless(line, P)
    ensures p in P && Spoils(line, p.0, p.1)
  {
    if Blank(line) {
      p :| p in P && !ReachedBehind(line, p.0, p.1);
      BlankSaysNothing(line);
    } else {
      p :| p in P && !Names(CONF_FILE, line, p.0);
    }
  }

  lemma HarmfulEndsBadly(text: string, line: Str, P: Settings) returns (p: (Str, Str))
    requires line in Split(text) && !Harmless(line, P)
    ensures p in P && EndsBadly(Split(text), p.0, p.1)
  {
    SplitSeparates(text);
    p := HarmedSetting(line, P);
    UnendedIsLast(Split(text), line, p.0, p.1);
  }

  ghost predicate EveryRunReads(global: seq<Entry>, filter: Str -> bool, skip: Str -> bool, text: string, P: Settings) {
    forall ops :: Sets(ops, P) ==> ReadsAs(global, filter, skip, text, ops)
  }

  ghost predicate AllHarmless(lines: seq<Str>, P: Settings) {
    forall line <- lines :: Harmless(line, P)
  }

  /** From text to text: a file is parsed over the global entries, any run sets names to values of P,
      deletes, saves and fails to save, and the text saved at last is parsed again. The law holds of
      every such run exactly when every setting is storable, no line of the file is read in pieces as a
      key that it is not as a whole, and nothing is lost behind the last line: it is ended, or blank and
      every stored line is reached behind it, or it names every name that may be set. */
  lemma EveryTextRunExactly(global: seq<Entry>, filter: Str -> bool, skip: Str -> bool, text: string, P: Settings)
    requires Unique(global) && AllPlain(P) && AllShort(Split(text))
    ensures EveryRunReads(global, filter, skip, text, P) <==>
      AllStorable(P) && AllOwn(Split(text)) && AllHarmless(Split(text), P)
  {
    if !AllOwn(Split(text)) {
      var line :| line in Split(text) && !Own(line);
      var n :| LineReading(line, n).Some? && !Names(CONF_FILE, line, n);
      StrayKeyRunFails(global, filter, skip, text, line, n);
      assert Sets([Delete(n)], P);
    } else if !AllHarmless(Split(text), P) {
      var line :| line in Split(text) && !Harmless(line, P);
      var p := HarmfulEndsBadly(text, line, P);
      BadEndRunFails(global, filter, skip, text, p.0, p.1);
      assert Sets(SetAnew(p.0, p.1), P);
    } else {
      assert AllFine(Split(text), P);
      AllRunsReadExactly(global, filter, skip, text, P);
    }
  }

  lemma AllRunsReadExactly(global: seq<Entry>, filter: Str -> bool, skip: Str -> bool, text: string, P: Settings)
    requires Unique(global) && AllPlain(P) && AllFine(Split(text), P)
    ensures EveryRunReads(global, filter, skip, text, P) <==> AllStorable(P)
  {
    if !AllStorable(P) {
      var p :| p in P && !Storable(p.0, p.1);
      UnstorableRunFails(global, filter, skip, text, p.0, p.1, P);
      assert Sets([Set(p.0, p.1)], P);
    } else {
      forall ops | Sets(ops, P)
        ensures ReadsAs(global, filter, skip, text, ops)
      {
        FineRunReads(global, filter, skip, text, P, ops);
      }
    }
  }

  /** A file whose lines all fit the buffer of the parser has no stray keys. */
  lemma FittingLinesAreOwn(text: string)
    requires forall line <- Split(text) :: |line.text| < PARSE_BUF
    ensures AllOwn(Split(text))
  {
    SplitSeparates(text);
    forall line <- Split(text), n | LineReading(line, n).Some?
      ensures Names(CONF_FILE, line, n)
    {
      FgetsOfOneLine(line.text, PARSE_BUF);
      ValueOfOne(CONF_FILE, line, n);
    }
  }

  /** Reopening the new text finds what the run left set; a name left deleted, or that is skipped in the
      own file, has its global value; a name left untouched reads as at first. */
  lemma TextRunReopens(global: seq<Entry>, filter: Str -> bool, skip: Str -> bool, text: string, P: Settings,
                       ops: seq<Op>, n: Str)
    requires Unique(global) && AllPlain(P) && AllStorable(P) && AllFine(Split(text), P) && Sets(ops, P)
    ensures ValueIn(OpenedText(global, filter, skip, TextAfter(global, filter, skip, text, ops)), n) ==
      match DueWord(ops, n)
      case Untouched => ValueIn(OpenedText(global, filter, skip, text), n)
      case SetTo(v) => if skip(n) then GlobalValue(global, filter, n) else Some(v)
      case Deleted => GlobalValue(global, filter, n)
  {
    FineRunReads(global, filter, skip, text, P, ops);
    MergedFinds([], global, filter, n);
    ParsingFinds(CONF_FILE, Merged([], global, filter), Fgets(text, PARSE_BUF), skip, n);
    ParsingFinds(CONF_FILE, Merged([], global, filter),
                 Fgets(TextAfter(global, filter, skip, text, ops), PARSE_BUF), skip, n);
  }
}
