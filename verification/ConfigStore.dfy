/** The configuration store of lib/config.c: a growing array of marked name/value pairs,
    and a save that rewrites an existing file line by line. */
module ConfigStore {
  import opened Common

  /** What a line of a file says: nothing the store knows about, or a value for a name. */
  datatype Parsed = Nothing | Setting(name: Str, value: Str)

  /** parse_line and the format of a stored line. */
  datatype Syntax = Syntax(parse: Str -> Parsed, render: (Str, Str) -> Str)

  /** CONF_DATA_NEW, CONF_DATA_UPDATED and CONF_DATA_STORED. */
  datatype Mask = Mask(isNew: bool, updated: bool, stored: bool)
  {
    function Or(other: Mask): Mask {
      Mask(isNew || other.isNew, updated || other.updated, stored || other.stored)
    }
  }

  const NO_MARK := Mask(false, false, false)
  const NEW := Mask(true, false, false)
  const UPDATED := Mask(false, true, false)

  datatype Entry = Entry(name: Str, val: Option<Str>, mask: Mask)

  const DELTA: nat := 255

  // ---------------------------------------------------------------------
  // The store as a sequence of entries.
  // ---------------------------------------------------------------------

  ghost predicate Unique(es: seq<Entry>) {
    forall i, j :: 0 <= i < j < |es| ==> es[i].name != es[j].name
  }

  ghost predicate NoneStored(es: seq<Entry>) {
    forall e <- es :: !e.mask.stored
  }

  /** The first entry of this name, or the number of entries. */
  function IndexOf(es: seq<Entry>, name: Str): (i: nat)
    ensures i <= |es| && (i < |es| ==> es[i].name == name)
    ensures forall j :: 0 <= j < i ==> es[j].name != name
  {
    if |es| == 0 then 0
    else if es[0].name == name then 0
    else 1 + IndexOf(es[1..], name)
  }

  function ValueIn(es: seq<Entry>, name: Str): Option<Str> {
    var i := IndexOf(es, name);
    if i < |es| then es[i].val else None
  }

  ghost predicate IsUpdated(es: seq<Entry>, name: Str) {
    exists e :: e in es && e.name == name && e.mask.updated
  }

  function Added(es: seq<Entry>, name: Str, val: Option<Str>, mask: Mask): seq<Entry> {
    var i := IndexOf(es, name);
    if i < |es| then es[i := Entry(es[i].name, val, es[i].mask.Or(mask))]
    else es + [Entry(name, val, if mask == NO_MARK then NEW else mask)]
  }

  lemma IndexIs(es: seq<Entry>, i: nat)
    requires Unique(es) && i < |es|
    ensures IndexOf(es, es[i].name) == i
  {
    var j := IndexOf(es, es[i].name);
    assert j <= i;
    assert es[j].name == es[i].name;
  }

  /** Adding sets the value of one name and of no other. */
  lemma AddedSets(es: seq<Entry>, name: Str, val: Option<Str>, mask: Mask, n: Str)
    requires Unique(es)
    ensures Unique(Added(es, name, val, mask))
    ensures ValueIn(Added(es, name, val, mask), n) == (if n == name then val else ValueIn(es, n))
  {
    var i, r := IndexOf(es, name), Added(es, name, val, mask);
    assert Unique(r);
    var j := IndexOf(es, n);
    if n == name {
      assert r[i].name == n;
      IndexIs(r, i);
    } else if j < |es| {
      assert r[j].name == n;
      IndexIs(r, j);
    } else {
      assert forall k :: 0 <= k < |r| ==> r[k].name != n;
    }
  }

  // ---------------------------------------------------------------------
  // What a file says.
  // ---------------------------------------------------------------------

  predicate Names(sx: Syntax, line: Str, n: Str) {
    var p := sx.parse(line);
    p.Setting? && p.name == n
  }

  /** The last line that names n decides. */
  function ValueOf(sx: Syntax, lines: seq<Str>, n: Str): Option<Str> {
    if |lines| == 0 then None
    else if Names(sx, lines[|lines| - 1], n) then Some(sx.parse(lines[|lines| - 1]).value)
    else ValueOf(sx, lines[..|lines| - 1], n)
  }

  lemma {:induction false} ValueOfBoth(sx: Syntax, a: seq<Str>, b: seq<Str>, n: Str)
    ensures ValueOf(sx, a + b, n) == (var v := ValueOf(sx, b, n); if v.Some? then v else ValueOf(sx, a, n))
  {
    if |b| == 0 {
      assert a + b == a;
    } else {
      var front := b[..|b| - 1];
      assert (a + b)[..|a + b| - 1] == a + front;
      ValueOfBoth(sx, a, front, n);
    }
  }

  lemma ValueOfOne(sx: Syntax, line: Str, n: Str)
    ensures ValueOf(sx, [line], n) == (if Names(sx, line, n) then Some(sx.parse(line).value) else None)
  {
    assert [line][..0] == [];
  }

  predicate SkipNone(n: Str) {
    false
  }

  /** parse_conf_data: every line that names something it must not skip is added. */
  function Parsing(sx: Syntax, es: seq<Entry>, lines: seq<Str>, skip: Str -> bool): seq<Entry> {
    if |lines| == 0 then es
    else
      var before := Parsing(sx, es, lines[..|lines| - 1], skip);
      var p := sx.parse(lines[|lines| - 1]);
      if p.Nothing? || skip(p.name) then before else Added(before, p.name, Some(p.value), NO_MARK)
  }

  /** Parsing finds, for every name, what the last line says of it. */
  lemma {:induction false} ParsingFinds(sx: Syntax, es: seq<Entry>, lines: seq<Str>, skip: Str -> bool, n: Str)
    requires Unique(es)
    ensures Unique(Parsing(sx, es, lines, skip))
    ensures ValueIn(Parsing(sx, es, lines, skip), n) ==
      (if ValueOf(sx, lines, n).Some? && !skip(n) then ValueOf(sx, lines, n) else ValueIn(es, n))
  {
    if |lines| > 0 {
      var front, p := lines[..|lines| - 1], sx.parse(lines[|lines| - 1]);
      ParsingFinds(sx, es, front, skip, n);
      if p.Setting? && !skip(p.name) {
        AddedSets(Parsing(sx, es, front, skip), p.name, Some(p.value), NO_MARK, n);
      }
    }
  }

  /** merge_conf_data: every entry of src whose name is not filtered out is added. */
  function Merged(es: seq<Entry>, src: seq<Entry>, filter: Str -> bool): seq<Entry> {
    if |src| == 0 then es
    else
      var before, e := Merged(es, src[..|src| - 1], filter), src[|src| - 1];
      if filter(e.name) then before else Added(before, e.name, e.val, NO_MARK)
  }

  // ---------------------------------------------------------------------
  // Saving.
  // ---------------------------------------------------------------------

  function Written(sx: Syntax, e: Entry): seq<Str> {
    if e.val.Some? then [sx.render(e.name, e.val.value)] else []
  }

  /** What becomes of one line of the old file. */
  function Rewritten(sx: Syntax, es: seq<Entry>, line: Str): seq<Str> {
    var p := sx.parse(line);
    if p.Nothing? then [line]
    else
      var i := IndexOf(es, p.name);
      if i < |es| && es[i].mask.updated then Written(sx, es[i]) else [line]
  }

  function RewrittenAll(sx: Syntax, es: seq<Entry>, lines: seq<Str>): seq<Str> {
    if |lines| == 0 then []
    else RewrittenAll(sx, es, lines[..|lines| - 1]) + Rewritten(sx, es, lines[|lines| - 1])
  }

  /** Whether the rewriting met the entry. */
  predicate Met(sx: Syntax, e: Entry, lines: seq<Str>) {
    e.mask.updated && exists line <- lines :: Names(sx, line, e.name)
  }

  function Rest(sx: Syntax, lines: seq<Str>, e: Entry): seq<Str> {
    if e.mask.updated && !e.mask.stored && !Met(sx, e, lines) then Written(sx, e) else []
  }

  /** The entries written at the end, those of the first k. */
  function Appended(sx: Syntax, es: seq<Entry>, lines: seq<Str>, k: nat): seq<Str>
    requires k <= |es|
  {
    if k == 0 then [] else Appended(sx, es, lines, k - 1) + Rest(sx, lines, es[k - 1])
  }

  function Saved(sx: Syntax, es: seq<Entry>, lines: seq<Str>): seq<Str> {
    RewrittenAll(sx, es, lines) + Appended(sx, es, lines, |es|)
  }

  function Settled(es: seq<Entry>): (r: seq<Entry>)
    ensures |r| == |es| && forall i :: 0 <= i < |es| ==> r[i] == es[i].(mask := NEW)
  {
    seq(|es|, i requires 0 <= i < |es| => es[i].(mask := NEW))
  }

  /** Every line a save writes for an entry says what the entry holds. */
  ghost predicate ReadsBack(sx: Syntax, es: seq<Entry>) {
    forall e <- es :: e.mask.updated && e.val.Some? ==>
      sx.parse(sx.render(e.name, e.val.value)) == Setting(e.name, e.val.value)
  }

  lemma {:induction false} RewrittenSays(sx: Syntax, es: seq<Entry>, lines: seq<Str>, n: Str)
    requires Unique(es) && ReadsBack(sx, es)
    ensures var i := IndexOf(es, n);
      ValueOf(sx, RewrittenAll(sx, es, lines), n) ==
      (if i < |es| && es[i].mask.updated then
         if exists line <- lines :: Names(sx, line, n) then es[i].val else None
       else ValueOf(sx, lines, n))
  {
    if |lines| > 0 {
      var front, line := lines[..|lines| - 1], lines[|lines| - 1];
      RewrittenSays(sx, es, front, n);
      ValueOfBoth(sx, RewrittenAll(sx, es, front), Rewritten(sx, es, line), n);
      LineSays(sx, es, line, n);
      assert lines == front + [line];
    }
  }

  lemma LineSays(sx: Syntax, es: seq<Entry>, line: Str, n: Str)
    requires Unique(es) && ReadsBack(sx, es)
    ensures var i := IndexOf(es, n);
      ValueOf(sx, Rewritten(sx, es, line), n) ==
      if !Names(sx, line, n) then None
      else if i < |es| && es[i].mask.updated then es[i].val
      else Some(sx.parse(line).value)
  {
    var p := sx.parse(line);
    ValueOfOne(sx, line, n);
    if p.Setting? {
      var i := IndexOf(es, p.name);
      if i < |es| && es[i].mask.updated && es[i].val.Some? {
        ValueOfOne(sx, sx.render(p.name, es[i].val.value), n);
      }
    }
  }

  lemma RestSays(sx: Syntax, es: seq<Entry>, lines: seq<Str>, i: nat, n: Str)
    requires i < |es| && NoneStored(es) && ReadsBack(sx, es)
    ensures var e := es[i];
      ValueOf(sx, Rest(sx, lines, e), n) ==
      if e.name == n && e.mask.updated && !Met(sx, e, lines) then e.val else None
  {
    var e := es[i];
    assert e in es;
    if e.val.Some? {
      ValueOfOne(sx, sx.render(e.name, e.val.value), n);
    }
  }

  /** Entry i is the one of this name; there is none if i is the number of entries. */
  ghost predicate HasNameAt(es: seq<Entry>, n: Str, i: nat) {
    i <= |es| && forall m :: 0 <= m < |es| ==> (es[m].name == n <==> m == i)
  }

  lemma IndexHasName(es: seq<Entry>, n: Str)
    requires Unique(es)
    ensures HasNameAt(es, n, IndexOf(es, n))
  {
  }

  ghost predicate RestIs(sx: Syntax, es: seq<Entry>, lines: seq<Str>, n: Str, i: nat, w: Option<Str>, j: nat)
    requires j < |es|
  {
    ValueOf(sx, Rest(sx, lines, es[j]), n) == if j == i then w else None
  }

  lemma {:induction false} AppendedSays(sx: Syntax, es: seq<Entry>, lines: seq<Str>, k: nat, n: Str, i: nat,
                                        w: Option<Str>)
    requires k <= |es| && forall j: nat :: j < |es| ==> RestIs(sx, es, lines, n, i, w, j)
    ensures ValueOf(sx, Appended(sx, es, lines, k), n) == if i < k then w else None
  {
    if k > 0 {
      AppendedSays(sx, es, lines, k - 1, n, i, w);
      ValueOfBoth(sx, Appended(sx, es, lines, k - 1), Rest(sx, lines, es[k - 1]), n);
      assert RestIs(sx, es, lines, n, i, w, k - 1);
    }
  }

  lemma AllAppendedSay(sx: Syntax, es: seq<Entry>, lines: seq<Str>, n: Str, i: nat)
    requires NoneStored(es) && ReadsBack(sx, es) && HasNameAt(es, n, i)
    ensures ValueOf(sx, Appended(sx, es, lines, |es|), n) ==
      if i < |es| && es[i].mask.updated && !Met(sx, es[i], lines) then es[i].val else None
  {
    var w := if i < |es| && es[i].mask.updated && !Met(sx, es[i], lines) then es[i].val else None;
    forall j: nat | j < |es|
      ensures RestIs(sx, es, lines, n, i, w, j)
    {
      RestSays(sx, es, lines, j, n);
    }
    AppendedSays(sx, es, lines, |es|, n, i, w);
  }

  /** A saved file says of every updated name what the store holds, and of every other what it said. */
  lemma SaveThenParse(sx: Syntax, es: seq<Entry>, lines: seq<Str>, n: Str)
    requires Unique(es) && NoneStored(es) && ReadsBack(sx, es)
    ensures ValueOf(sx, Saved(sx, es, lines), n) ==
      (if IsUpdated(es, n) then ValueIn(es, n) else ValueOf(sx, lines, n))
  {
    var i := IndexOf(es, n);
    RewrittenSays(sx, es, lines, n);
    IndexHasName(es, n);
    AllAppendedSay(sx, es, lines, n, i);
    ValueOfBoth(sx, RewrittenAll(sx, es, lines), Appended(sx, es, lines, |es|), n);
    if i < |es| {
      assert es[i] in es;
    }
    forall e <- es | e.name == n
      ensures i < |es| && e == es[i]
    {
      var j :| 0 <= j < |es| && es[j] == e;
      IndexIs(es, j);
    }
  }

  /** Lines that name an updated entry are the store's to rewrite. */
  predicate Mine(sx: Syntax, es: seq<Entry>, line: Str) {
    var p := sx.parse(line);
    p.Setting? && var i := IndexOf(es, p.name); i < |es| && es[i].mask.updated
  }

  function Others(sx: Syntax, es: seq<Entry>, lines: seq<Str>): seq<Str> {
    if |lines| == 0 then []
    else
      var line := lines[|lines| - 1];
      Others(sx, es, lines[..|lines| - 1]) + if Mine(sx, es, line) then [] else [line]
  }

  lemma {:induction false} OthersOfBoth(sx: Syntax, es: seq<Entry>, a: seq<Str>, b: seq<Str>)
    ensures Others(sx, es, a + b) == Others(sx, es, a) + Others(sx, es, b)
  {
    if |b| == 0 {
      assert a + b == a;
    } else {
      var front := b[..|b| - 1];
      assert (a + b)[..|a + b| - 1] == a + front;
      OthersOfBoth(sx, es, a, front);
    }
  }

  lemma OthersOfOne(sx: Syntax, es: seq<Entry>, line: Str)
    ensures Others(sx, es, [line]) == if Mine(sx, es, line) then [] else [line]
  {
    assert [line][..0] == [];
  }

  lemma WrittenIsMine(sx: Syntax, es: seq<Entry>, i: nat)
    requires Unique(es) && ReadsBack(sx, es) && i < |es| && es[i].mask.updated
    ensures Others(sx, es, Written(sx, es[i])) == []
  {
    IndexIs(es, i);
    if es[i].val.Some? {
      OthersOfOne(sx, es, sx.render(es[i].name, es[i].val.value));
    }
  }

  lemma {:induction false} RewrittenKeepsOthers(sx: Syntax, es: seq<Entry>, lines: seq<Str>)
    requires Unique(es) && ReadsBack(sx, es)
    ensures Others(sx, es, RewrittenAll(sx, es, lines)) == Others(sx, es, lines)
  {
    if |lines| > 0 {
      var front, line := lines[..|lines| - 1], lines[|lines| - 1];
      RewrittenKeepsOthers(sx, es, front);
      OthersOfBoth(sx, es, RewrittenAll(sx, es, front), Rewritten(sx, es, line));
      OthersOfOne(sx, es, line);
      if Mine(sx, es, line) {
        WrittenIsMine(sx, es, IndexOf(es, sx.parse(line).name));
      }
    }
  }

  lemma {:induction false} AppendedAddsNoOthers(sx: Syntax, es: seq<Entry>, lines: seq<Str>, k: nat)
    requires k <= |es| && Unique(es) && ReadsBack(sx, es)
    ensures Others(sx, es, Appended(sx, es, lines, k)) == []
  {
    if k > 0 {
      AppendedAddsNoOthers(sx, es, lines, k - 1);
      OthersOfBoth(sx, es, Appended(sx, es, lines, k - 1), Rest(sx, lines, es[k - 1]));
      if es[k - 1].mask.updated {
        WrittenIsMine(sx, es, k - 1);
      }
    }
  }

  /** Comments, unparsable lines and lines of names not updated survive a save unchanged and in order. */
  lemma SaveKeepsOthers(sx: Syntax, es: seq<Entry>, lines: seq<Str>)
    requires Unique(es) && ReadsBack(sx, es)
    ensures Others(sx, es, Saved(sx, es, lines)) == Others(sx, es, lines)
  {
    RewrittenKeepsOthers(sx, es, lines);
    AppendedAddsNoOthers(sx, es, lines, |es|);
    OthersOfBoth(sx, es, RewrittenAll(sx, es, lines), Appended(sx, es, lines, |es|));
  }

  lemma SettledKeeps(es: seq<Entry>, n: Str)
    requires Unique(es)
    ensures Unique(Settled(es)) && NoneStored(Settled(es)) && !IsUpdated(Settled(es), n)
    ensures ValueIn(Settled(es), n) == ValueIn(es, n)
  {
    var i, r := IndexOf(es, n), Settled(es);
    if i < |es| {
      assert r[i].name == n;
      IndexIs(r, i);
    } else {
      assert forall k :: 0 <= k < |r| ==> r[k].name != n;
    }
  }

  lemma FrontAndLast(lines: seq<Str>)
    requires |lines| > 0
    ensures lines == lines[..|lines| - 1] + [lines[|lines| - 1]]
  {
  }

  lemma NotMineStays(sx: Syntax, es: seq<Entry>, line: Str)
    requires !Mine(sx, es, line)
    ensures Rewritten(sx, es, line) == [line]
  {
  }

  lemma {:induction false} NothingOfMine(sx: Syntax, es: seq<Entry>, lines: seq<Str>)
    requires forall line <- lines :: !Mine(sx, es, line)
    ensures RewrittenAll(sx, es, lines) == lines
  {
    if |lines| > 0 {
      NothingOfMine(sx, es, lines[..|lines| - 1]);
      NotMineStays(sx, es, lines[|lines| - 1]);
      FrontAndLast(lines);
    }
  }

  lemma {:induction false} NothingToAppend(sx: Syntax, es: seq<Entry>, lines: seq<Str>, k: nat)
    requires k <= |es| && forall e <- es :: !e.mask.updated
    ensures Appended(sx, es, lines, k) == []
  {
    if k > 0 {
      NothingToAppend(sx, es, lines, k - 1);
    }
  }

  /** A second save leaves any file as it is. */
  lemma SecondSaveChangesNothing(sx: Syntax, es: seq<Entry>, lines: seq<Str>)
    ensures Saved(sx, Settled(es), lines) == lines
  {
    NothingOfMine(sx, Settled(es), lines);
    NothingToAppend(sx, Settled(es), lines, |es|);
  }

  lemma {:induction false} MergedFinds(es: seq<Entry>, src: seq<Entry>, filter: Str -> bool, n: Str)
    requires Unique(es) && Unique(src)
    ensures Unique(Merged(es, src, filter))
    ensures ValueIn(Merged(es, src, filter), n) ==
      (if IndexOf(src, n) < |src| && !filter(n) then ValueIn(src, n) else ValueIn(es, n))
  {
    if |src| > 0 {
      var front, e := src[..|src| - 1], src[|src| - 1];
      MergedFinds(es, front, filter, n);
      IndexIs(src, |src| - 1);
      var i := IndexOf(src, n);
      if i < |front| {
        assert front[i].name == n;
        IndexIs(front, i);
      } else {
        assert forall k :: 0 <= k < |front| ==> front[k].name != n;
      }
      if !filter(e.name) {
        AddedSets(Merged(es, front, filter), e.name, e.val, NO_MARK, n);
      }
    }
  }

  /** conf_parse: the global entries first, then the container's own file over them. */
  function Opened(sx: Syntax, global: seq<Entry>, filter: Str -> bool, lines: seq<Str>, skip: Str -> bool): seq<Entry> {
    Parsing(sx, Merged([], global, filter), lines, skip)
  }

  /** Reopening after a save finds the updates, except that a deleted name falls back to
      the global entry; what was not updated reads as it did before. */
  lemma SaveThenReopen(sx: Syntax, es: seq<Entry>, lines: seq<Str>, global: seq<Entry>, filter: Str -> bool,
                       skip: Str -> bool, n: Str)
    requires Unique(es) && NoneStored(es) && ReadsBack(sx, es) && Unique(global)
    ensures ValueIn(Opened(sx, global, filter, Saved(sx, es, lines), skip), n) ==
      if !IsUpdated(es, n) then ValueIn(Opened(sx, global, filter, lines, skip), n)
      else if ValueIn(es, n).Some? && !skip(n) then ValueIn(es, n)
      else if IndexOf(global, n) < |global| && !filter(n) then ValueIn(global, n)
      else None
  {
    SaveThenParse(sx, es, lines, n);
    MergedFinds([], global, filter, n);
    ParsingFinds(sx, Merged([], global, filter), lines, skip, n);
    ParsingFinds(sx, Merged([], global, filter), Saved(sx, es, lines), skip, n);
  }

  // ---------------------------------------------------------------------
  // Runs of updates and saves.
  // ---------------------------------------------------------------------

  /** A save whose rename fails leaves the old file, but the marks are settled before it. */
  datatype Op = Set(name: Str, val: Str) | Delete(name: Str) | Save | FailedSave

  datatype State = State(es: seq<Entry>, file: seq<Str>)

  function Perform(sx: Syntax, st: State, op: Op): State {
    match op
    case Set(n, v) => State(Added(st.es, n, Some(v), UPDATED), st.file)
    case Delete(n) => State(Added(st.es, n, None, UPDATED), st.file)
    case Save => State(Settled(st.es), Saved(sx, st.es, st.file))
    case FailedSave => State(Settled(st.es), st.file)
  }

  function PerformAll(sx: Syntax, st: State, ops: seq<Op>): State {
    if |ops| == 0 then st else Perform(sx, PerformAll(sx, st, ops[..|ops| - 1]), ops[|ops| - 1])
  }

  ghost predicate Sayable(sx: Syntax, ops: seq<Op>) {
    forall op <- ops :: op.Set? ==> sx.parse(sx.render(op.name, op.val)) == Setting(op.name, op.val)
  }

  /** What a run last did to a name. */
  datatype Word = Untouched | SetTo(val: Str) | Deleted

  function LastWord(ops: seq<Op>, n: Str): Word {
    if |ops| == 0 then Untouched
    else
      var op := ops[|ops| - 1];
      if op.Set? && op.name == n then SetTo(op.val)
      else if op.Delete? && op.name == n then Deleted
      else LastWord(ops[..|ops| - 1], n)
  }

  /** What a run leaves to be said of a name by the next save that does not fail. */
  function DueWord(ops: seq<Op>, n: Str): Word {
    if |ops| == 0 then Untouched
    else
      var front, op := ops[..|ops| - 1], ops[|ops| - 1];
      if op.FailedSave? then FileWord(front, n)
      else if op.Set? && op.name == n then SetTo(op.val)
      else if op.Delete? && op.name == n then Deleted
      else DueWord(front, n)
  }

  /** What the last save of a run that did not fail has said of a name. */
  function FileWord(ops: seq<Op>, n: Str): Word {
    if |ops| == 0 then Untouched
    else
      var front, op := ops[..|ops| - 1], ops[|ops| - 1];
      if op.Save? then DueWord(front, n) else FileWord(front, n)
  }

  /** At every failed save behind the last word on n nothing was due but what the file says. */
  predicate NothingLost(ops: seq<Op>, n: Str) {
    if |ops| == 0 then true
    else
      var front, op := ops[..|ops| - 1], ops[|ops| - 1];
      if (op.Set? || op.Delete?) && op.name == n then true
      else if op.FailedSave? then NothingLost(front, n) && DueWord(front, n) == FileWord(front, n)
      else NothingLost(front, n)
  }

  /** What is lost is in the file as it was. */
  lemma {:induction false} LostIsInFile(ops: seq<Op>, n: Str)
    ensures DueWord(ops, n) == LastWord(ops, n) || DueWord(ops, n) == FileWord(ops, n)
  {
    if |ops| > 0 {
      LostIsInFile(ops[..|ops| - 1], n);
    }
  }

  /** The last word on a name reaches the file exactly when no failed save lost it. */
  lemma {:induction false} LastWordIsDueExactly(ops: seq<Op>, n: Str)
    ensures DueWord(ops, n) == LastWord(ops, n) <==> NothingLost(ops, n)
  {
    if |ops| > 0 {
      LastWordIsDueExactly(ops[..|ops| - 1], n);
      LostIsInFile(ops[..|ops| - 1], n);
    }
  }

  function Said(w: Word, before: Option<Str>): Option<Str> {
    match w
    case Untouched => before
    case SetTo(v) => Some(v)
    case Deleted => None
  }

  ghost predicate Sound(sx: Syntax, es: seq<Entry>) {
    Unique(es) && NoneStored(es) && ReadsBack(sx, es)
  }

  /** What the file will say of a name after the next save. */
  ghost function Due(sx: Syntax, es: seq<Entry>, lines: seq<Str>, n: Str): Option<Str> {
    if IsUpdated(es, n) then ValueIn(es, n) else ValueOf(sx, lines, n)
  }

  lemma AddedIsSound(sx: Syntax, es: seq<Entry>, name: Str, val: Option<Str>)
    requires Sound(sx, es)
    requires val.Some? ==> sx.parse(sx.render(name, val.value)) == Setting(name, val.value)
    ensures Sound(sx, Added(es, name, val, UPDATED))
  {
    AddedSets(es, name, val, UPDATED, name);
  }

  lemma AddedIsUpdated(es: seq<Entry>, name: Str, val: Option<Str>, n: Str)
    requires Unique(es)
    ensures IsUpdated(Added(es, name, val, UPDATED), n) <==> n == name || IsUpdated(es, n)
  {
    var i, r := IndexOf(es, name), Added(es, name, val, UPDATED);
    assert r[i].name == name && r[i].mask.updated && r[i] in r;
    if IsUpdated(es, n) && n != name {
      var e :| e in es && e.name == n && e.mask.updated;
      var j :| 0 <= j < |es| && es[j] == e;
      assert r[j] == e && r[j] in r;
    }
    if IsUpdated(r, n) && n != name {
      var e :| e in r && e.name == n && e.mask.updated;
      var j :| 0 <= j < |r| && r[j] == e;
      assert e == es[j] && es[j] in es;
    }
  }

  /** The entries after one step that is no save. */
  function Updated(es: seq<Entry>, op: Op): seq<Entry>
    requires op.Set? || op.Delete?
  {
    Added(es, op.name, if op.Set? then Some(op.val) else None, UPDATED)
  }

  lemma UpdateSays(sx: Syntax, es: seq<Entry>, lines: seq<Str>, op: Op, n: Str)
    requires (op.Set? || op.Delete?) && Sound(sx, es)
    requires op.Set? ==> sx.parse(sx.render(op.name, op.val)) == Setting(op.name, op.val)
    ensures var es' := Updated(es, op);
      && Sound(sx, es')
      && ValueIn(es', n) == Said(LastWord([op], n), ValueIn(es, n))
      && Due(sx, es', lines, n) == Said(LastWord([op], n), Due(sx, es, lines, n))
  {
    var val := if op.Set? then Some(op.val) else None;
    AddedIsSound(sx, es, op.name, val);
    AddedSets(es, op.name, val, UPDATED, n);
    AddedIsUpdated(es, op.name, val, n);
    assert [op][..0] == [];
  }

  /** Set and delete change what is due for the name they give, a save brings what is due into the
      file, and one that fails forgets it. */
  lemma StepSays(sx: Syntax, st: State, op: Op, n: Str)
    requires Sound(sx, st.es) && Sayable(sx, [op])
    ensures var st' := Perform(sx, st, op);
      var due, file := Due(sx, st.es, st.file, n), ValueOf(sx, st.file, n);
      && Sound(sx, st'.es)
      && ValueIn(st'.es, n) == Said(LastWord([op], n), ValueIn(st.es, n))
      && Due(sx, st'.es, st'.file, n) == (if op.FailedSave? then file else Said(LastWord([op], n), due))
      && ValueOf(sx, st'.file, n) == (if op.Save? then due else file)
  {
    assert op in [op] && [op][..0] == [];
    if op.Set? || op.Delete? {
      UpdateSays(sx, st.es, st.file, op, n);
    } else {
      SettledKeeps(st.es, n);
      SaveThenParse(sx, st.es, st.file, n);
    }
  }

  lemma LastWordOfMore(ops: seq<Op>, n: Str, before: Option<Str>)
    requires |ops| > 0
    ensures var front, op := ops[..|ops| - 1], ops[|ops| - 1];
      && Said(LastWord(ops, n), before) == Said(LastWord([op], n), Said(LastWord(front, n), before))
      && Said(DueWord(ops, n), before) ==
        (if op.FailedSave? then Said(FileWord(front, n), before)
         else Said(LastWord([op], n), Said(DueWord(front, n), before)))
  {
    assert [ops[|ops| - 1]][..0] == [];
  }

  lemma {:induction false} RunSays(sx: Syntax, st: State, ops: seq<Op>, n: Str)
    requires Sound(sx, st.es) && Sayable(sx, ops) && !IsUpdated(st.es, n)
    ensures var st', file := PerformAll(sx, st, ops), ValueOf(sx, st.file, n);
      && Sound(sx, st'.es)
      && ValueIn(st'.es, n) == Said(LastWord(ops, n), ValueIn(st.es, n))
      && Due(sx, st'.es, st'.file, n) == Said(DueWord(ops, n), file)
      && ValueOf(sx, st'.file, n) == Said(FileWord(ops, n), file)
  {
    if |ops| > 0 {
      RunSays(sx, st, ops[..|ops| - 1], n);
      StepSays(sx, PerformAll(sx, st, ops[..|ops| - 1]), ops[|ops| - 1], n);
      LastWordOfMore(ops, n, ValueIn(st.es, n));
      LastWordOfMore(ops, n, ValueOf(sx, st.file, n));
    }
  }

  lemma {:induction false} ParsingUnmarked(sx: Syntax, es: seq<Entry>, lines: seq<Str>, skip: Str -> bool)
    requires forall e <- es :: e.mask == NEW
    ensures forall e <- Parsing(sx, es, lines, skip) :: e.mask == NEW
  {
    if |lines| > 0 {
      ParsingUnmarked(sx, es, lines[..|lines| - 1], skip);
    }
  }

  lemma {:induction false} MergedUnmarked(src: seq<Entry>, filter: Str -> bool)
    ensures forall e <- Merged([], src, filter) :: e.mask == NEW
  {
    if |src| > 0 {
      MergedUnmarked(src[..|src| - 1], filter);
    }
  }

  /** A store just opened has nothing to be saved. */
  lemma OpenedIsSound(sx: Syntax, global: seq<Entry>, filter: Str -> bool, lines: seq<Str>, skip: Str -> bool, n: Str)
    requires Unique(global)
    ensures var es := Opened(sx, global, filter, lines, skip);
      Sound(sx, es) && !IsUpdated(es, n)
  {
    MergedUnmarked(global, filter);
    MergedFinds([], global, filter, n);
    ParsingUnmarked(sx, Merged([], global, filter), lines, skip);
    ParsingFinds(sx, Merged([], global, filter), lines, skip, n);
  }

  /** After any run from any open, with failed saves among its steps, a further save leaves the file
      saying of every name what the run left due for it, and of every other what it said at first; the
      store holds what the run last said, and of the other names what it held when opened. */
  lemma EveryRunSaves(sx: Syntax, global: seq<Entry>, filter: Str -> bool, lines: seq<Str>, skip: Str -> bool,
                      ops: seq<Op>, n: Str)
    requires Unique(global) && Sayable(sx, ops)
    ensures var start := Opened(sx, global, filter, lines, skip);
      var st := PerformAll(sx, State(start, lines), ops);
      && ValueOf(sx, Saved(sx, st.es, st.file), n) == Said(DueWord(ops, n), ValueOf(sx, lines, n))
      && ValueIn(st.es, n) == Said(LastWord(ops, n), ValueIn(start, n))
  {
    var start := Opened(sx, global, filter, lines, skip);
    OpenedIsSound(sx, global, filter, lines, skip, n);
    RunSays(sx, State(start, lines), ops, n);
    var st := PerformAll(sx, State(start, lines), ops);
    SaveThenParse(sx, st.es, st.file, n);
  }

  function GlobalValue(global: seq<Entry>, filter: Str -> bool, n: Str): Option<Str> {
    if IndexOf(global, n) < |global| && !filter(n) then ValueIn(global, n) else None
  }

  /** Reopening after any run and a save finds what the run left set; a name left deleted, or that
      is skipped in the own file, has its global value; a name left untouched reads as at first. */
  lemma EveryRunReopens(sx: Syntax, global: seq<Entry>, filter: Str -> bool, lines: seq<Str>, skip: Str -> bool,
                        ops: seq<Op>, n: Str)
    requires Unique(global) && Sayable(sx, ops)
    ensures var st := PerformAll(sx, State(Opened(sx, global, filter, lines, skip), lines), ops);
      ValueIn(Opened(sx, global, filter, Saved(sx, st.es, st.file), skip), n) ==
      match DueWord(ops, n)
      case Untouched => ValueIn(Opened(sx, global, filter, lines, skip), n)
      case SetTo(v) => if skip(n) then GlobalValue(global, filter, n) else Some(v)
      case Deleted => GlobalValue(global, filter, n)
  {
    var st := PerformAll(sx, State(Opened(sx, global, filter, lines, skip), lines), ops);
    EveryRunSaves(sx, global, filter, lines, skip, ops, n);
    MergedFinds([], global, filter, n);
    ParsingFinds(sx, Merged([], global, filter), lines, skip, n);
    ParsingFinds(sx, Merged([], global, filter), Saved(sx, st.es, st.file), skip, n);
  }

  /** A store opened from its own file alone, with nothing skipped, agrees with the file after any run
      and a save on every name no failed save lost the last word on; on another one exactly when the
      file happens to say the same. */
  lemma OwnFileAgreesExactly(sx: Syntax, lines: seq<Str>, ops: seq<Op>, n: Str)
    requires Sayable(sx, ops)
    ensures var st := PerformAll(sx, State(Opened(sx, [], SkipNone, lines, SkipNone), lines), ops);
      var file, before := ValueOf(sx, Saved(sx, st.es, st.file), n), ValueOf(sx, lines, n);
      file == ValueIn(st.es, n) <==>
      NothingLost(ops, n) || Said(FileWord(ops, n), before) == Said(LastWord(ops, n), before)
  {
    EveryRunSaves(sx, [], SkipNone, lines, SkipNone, ops, n);
    ParsingFinds(sx, [], lines, SkipNone, n);
    LastWordIsDueExactly(ops, n);
    LostIsInFile(ops, n);
  }

  // ---------------------------------------------------------------------
  // The store as it is kept.
  // ---------------------------------------------------------------------

  lemma FirstIsIndex(es: seq<Entry>, name: Str, i: nat)
    requires i <= |es| && (i < |es| ==> es[i].name == name)
    requires forall j :: 0 <= j < i ==> es[j].name != name
    ensures IndexOf(es, name) == i
  {
    var k := IndexOf(es, name);
    assert k < |es| ==> es[k].name == name;
  }

  /** The entry once the lines are rewritten: marked as stored when one of them was its own. */
  function Marked(sx: Syntax, e: Entry, lines: seq<Str>): Entry {
    if Met(sx, e, lines) then e.(mask := e.mask.(stored := true)) else e
  }

  lemma MarkedByOneMore(sx: Syntax, es: seq<Entry>, lines: seq<Str>, k: nat, i: nat)
    requires Unique(es) && k < |lines| && i < |es|
    ensures lines[..k + 1] == lines[..k] + [lines[k]]
    ensures Met(sx, es[i], lines[..k + 1]) <==>
      Met(sx, es[i], lines[..k]) || (Names(sx, lines[k], es[i].name) && es[i].mask.updated)
    ensures Names(sx, lines[k], es[i].name) <==>
      sx.parse(lines[k]).Setting? && IndexOf(es, sx.parse(lines[k]).name) == i
  {
    assert lines[..k + 1] == lines[..k] + [lines[k]];
    IndexIs(es, i);
  }

  lemma OneMoreLine(sx: Syntax, es: seq<Entry>, lines: seq<Str>, k: nat)
    requires k < |lines|
    ensures RewrittenAll(sx, es, lines[..k + 1]) == RewrittenAll(sx, es, lines[..k]) + Rewritten(sx, es, lines[k])
  {
    assert lines[..k + 1][..k] == lines[..k];
  }

  class Config {
    var data: array<Entry>
    var last: nat

    /** The array was last grown when the entry at a multiple of DELTA was added. */
    ghost predicate Valid()
      reads this
    {
      last > 0 ==> data.Length == (last - 1) / DELTA * DELTA + DELTA + 1
    }

    ghost function Contents(): seq<Entry>
      reads this, data
      requires Valid()
    {
      data[..last]
    }

    constructor ()
      ensures Valid() && Contents() == [] && fresh(data)
    {
      data := new Entry[0];
      last := 0;
    }

    method FindConfData(name: Str) returns (i: nat)
      requires Valid()
      ensures i == IndexOf(Contents(), name)
    {
      i := 0;
      while i < last
        invariant i <= last && forall j :: 0 <= j < i ==> data[j].name != name
      {
        if data[i].name == name {
          break;
        }
        i := i + 1;
      }
      FirstIsIndex(Contents(), name, i);
    }

    /** Makes room for one more entry. */
    method Grow()
      requires Valid()
      modifies this`data
      ensures last == old(last) && last < data.Length
      ensures data.Length == last / DELTA * DELTA + DELTA + 1
      ensures data[..last] == old(data[..last])
      ensures data == old(data) || fresh(data)
    {
      if last % DELTA == 0 {
        var d := new Entry[last + DELTA + 1];
        forall i | 0 <= i < last {
          d[i] := data[i];
        }
        data := d;
      }
    }

    method AddConfData(name: Str, val: Option<Str>, mask: Mask)
      requires Valid()
      modifies this, data
      ensures Valid() && Contents() == Added(old(Contents()), name, val, mask)
      ensures data == old(data) || fresh(data)
    {
      var i := FindConfData(name);
      if i < last {
        data[i] := Entry(data[i].name, val, data[i].mask.Or(mask));
        return;
      }
      Grow();
      data[last] := Entry(name, val, if mask == NO_MARK then NEW else mask);
      last := last + 1;
    }

    method MergeConfData(src: Config, filter: Str -> bool)
      requires Valid() && src.Valid() && src != this && src.data != data
      modifies this, data
      ensures Valid() && src.Contents() == old(src.Contents())
      ensures Contents() == Merged(old(Contents()), src.Contents(), filter)
      ensures data == old(data) || fresh(data)
    {
      var i := 0;
      ghost var es, ss := Contents(), src.Contents();
      assert ss[..0] == [];
      while i < src.last
        invariant i <= src.last && Valid() && (data == old(data) || fresh(data))
        invariant src.data != data && src.Valid() && src.Contents() == ss
        invariant Contents() == Merged(es, ss[..i], filter)
      {
        assert ss[..i + 1][..i] == ss[..i] && ss[i] == src.data[i];
        if !filter(src.data[i].name) {
          AddConfData(src.data[i].name, src.data[i].val, NO_MARK);
        }
        i := i + 1;
      }
      assert ss[..i] == ss;
    }

    method ParseConfData(sx: Syntax, lines: seq<Str>, skip: Str -> bool)
      requires Valid()
      modifies this, data
      ensures Valid() && Contents() == Parsing(sx, old(Contents()), lines, skip)
      ensures data == old(data) || fresh(data)
    {
      var k := 0;
      ghost var es := Contents();
      assert lines[..0] == [];
      while k < |lines|
        invariant k <= |lines| && Valid() && (data == old(data) || fresh(data))
        invariant Contents() == Parsing(sx, es, lines[..k], skip)
      {
        assert lines[..k + 1][..k] == lines[..k];
        var p := sx.parse(lines[k]);
        if p.Setting? && !skip(p.name) {
          AddConfData(p.name, Some(p.value), NO_MARK);
        }
        k := k + 1;
      }
      assert lines[..k] == lines;
    }

    /** What a save writes for one line, marking the entry it is written for. */
    method RewriteLine(sx: Syntax, ghost es: seq<Entry>, ghost lines: seq<Str>, ghost k: nat, line: Str)
        returns (out: seq<Str>)
      requires Valid() && last == |es| && Unique(es) && k < |lines| && line == lines[k]
      requires forall i :: 0 <= i < last ==> data[i] == Marked(sx, es[i], lines[..k])
      modifies data
      ensures forall i :: 0 <= i < last ==> data[i] == Marked(sx, es[i], lines[..k + 1])
      ensures out == Rewritten(sx, es, line)
    {
      forall i | 0 <= i < last {
        MarkedByOneMore(sx, es, lines, k, i);
      }
      out := [line];
      var p := sx.parse(line);
      if p.Setting? {
        var i := FindConfData(p.name);
        FirstIsIndex(es, p.name, i);
        if i < last && data[i].mask.updated {
          out := if data[i].val.Some? then [sx.render(data[i].name, data[i].val.value)] else [];
          data[i] := data[i].(mask := data[i].mask.(stored := true));
        }
      }
    }

    /** The first i entries are settled, the others as the lines left them. */
    ghost predicate Storing(sx: Syntax, es: seq<Entry>, lines: seq<Str>, i: nat)
      reads this, data
      requires Valid()
    {
      && last == |es| && i <= last
      && (forall j :: 0 <= j < i ==> data[j] == es[j].(mask := NEW))
      && (forall j :: i <= j < last ==> data[j] == Marked(sx, es[j], lines))
    }

    /** One entry: what is to be written for it, and its mark. */
    method StoreOne(sx: Syntax, ghost es: seq<Entry>, ghost lines: seq<Str>, i: nat) returns (out: seq<Str>)
      requires Valid() && Storing(sx, es, lines, i) && i < last
      modifies data
      ensures Storing(sx, es, lines, i + 1) && out == Rest(sx, lines, es[i])
    {
      var e := data[i];
      out := if !e.mask.stored && e.mask.updated && e.val.Some? then [sx.render(e.name, e.val.value)] else [];
      data[i] := e.(mask := NEW);
    }

    /** Writes what no line was rewritten for, and settles the marks. */
    method StoreRest(sx: Syntax, ghost es: seq<Entry>, ghost lines: seq<Str>) returns (out: seq<Str>)
      requires Valid() && Storing(sx, es, lines, 0)
      modifies data
      ensures Contents() == Settled(es)
      ensures out == Appended(sx, es, lines, |es|)
    {
      out := [];
      var i := 0;
      while i < last
        invariant Storing(sx, es, lines, i) && out == Appended(sx, es, lines, i)
      {
        var more := StoreOne(sx, es, lines, i);
        out := out + more;
        i := i + 1;
      }
    }

    /** What vzctl2_conf_save writes to the temporary file. */
    method WriteAll(sx: Syntax, lines: seq<Str>) returns (out: seq<Str>)
      requires Valid() && Unique(Contents())
      modifies data
      ensures out == Saved(sx, old(Contents()), lines)
      ensures Valid() && Contents() == Settled(old(Contents()))
    {
      ghost var es := Contents();
      out := [];
      var k := 0;
      assert lines[..0] == [];
      while k < |lines|
        invariant k <= |lines| && out == RewrittenAll(sx, es, lines[..k])
        invariant forall i :: 0 <= i < last ==> data[i] == Marked(sx, es[i], lines[..k])
      {
        OneMoreLine(sx, es, lines, k);
        var more := RewriteLine(sx, es, lines, k, lines[k]);
        out := out + more;
        k := k + 1;
      }
      assert lines[..k] == lines;
      var rest := StoreRest(sx, es, lines);
      out := out + rest;
    }

    /** vzctl2_conf_save: the lines of the file afterwards. The marks are settled even if the temporary
        file cannot be renamed. */
    method Save(sx: Syntax, lines: seq<Str>, renamed: bool) returns (ok: bool, file: seq<Str>)
      requires Valid() && Unique(Contents())
      modifies data
      ensures Valid() && ok == renamed
      ensures var st := Perform(sx, State(old(Contents()), lines), if renamed then Op.Save else FailedSave);
        Contents() == st.es && file == st.file
    {
      var out := WriteAll(sx, lines);
      ok, file := renamed, if renamed then out else lines;
    }
  }
}
