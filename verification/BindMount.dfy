/** Bind mounts of a container: their text in the configuration, parsing it, merging and
    printing (lib/bindmount.c). */
module BindMount {
  import opened Common
  import opened CText

  /** MS_NOSUID, MS_NOEXEC, MS_NODEV and MS_RDONLY. */
  datatype Flags = Flags(nosuid: bool, noexec: bool, nodev: bool, ro: bool)
  {
    function Or(other: Flags): Flags {
      Flags(nosuid || other.nosuid, noexec || other.noexec, nodev || other.nodev, ro || other.ro)
    }
  }

  const NO_FLAGS := Flags(false, false, false, false)

  datatype Op = Add | Del

  datatype Bindmount = Bindmount(src: Option<Str>, dst: Str, op: Op, mntopt: Flags)

  const STR_SIZE: nat := 512
  const WORD_SIZE: nat := 32

  // ---------------------------------------------------------------------
  // One mount.
  // ---------------------------------------------------------------------

  const OPT_NAMES: seq<Str> := [Str("nosuid"), Str("noexec"), Str("nodev"), Str("ro")]

  function FlagOf(i: nat): Flags {
    Flags(i == 0, i == 1, i == 2, i == 3)
  }

  /** get_mount_opt: the number of the option in the table. */
  function OptIndex(name: Str, from: nat): (i: nat)
    requires from <= |OPT_NAMES|
    ensures from <= i <= |OPT_NAMES| && (i < |OPT_NAMES| ==> OPT_NAMES[i] == name)
    ensures forall j :: from <= j < i ==> OPT_NAMES[j] != name
    decreases |OPT_NAMES| - from
  {
    if from == |OPT_NAMES| || OPT_NAMES[from] == name then from else OptIndex(name, from + 1)
  }

  /** A comma-separated list of options, which may end in a comma. */
  function ParseOpts(s: string): Option<Flags>
    decreases |s|
  {
    var p := Find(s, ',');
    var i := OptIndex(Str(s[..p]), 0);
    if p >= WORD_SIZE || i == |OPT_NAMES| then None
    else if p + 1 >= |s| then Some(FlagOf(i))
    else
      var rest := ParseOpts(s[p + 1..]);
      if rest.None? then None else Some(FlagOf(i).Or(rest.value))
  }

  predicate IsPath(s: string) {
    0 < |s| < STR_SIZE && s[0] == '/'
  }

  /** A path other than the root itself. */
  predicate IsTarget(s: string) {
    IsPath(s) && |s| > 1
  }

  datatype Token = Bad | All | Mount(mount: Bindmount)

  /** The options behind the target: a deletion may end in a comma. */
  function OptsBehind(s: string, q: nat, add: bool): Option<Flags>
    requires q <= |s|
  {
    if q == |s| || (!add && q + 1 == |s|) then Some(NO_FLAGS) else ParseOpts(s[q + 1..])
  }

  function ParseTarget(src: Option<Str>, s: string, add: bool): Token {
    var q := Find(s, ',');
    if !IsTarget(s[..q]) then Bad
    else
      var opts := OptsBehind(s, q, add);
      if opts.None? then Bad else Mount(Bindmount(src, Str(s[..q]), if add then Add else Del, opts.value))
  }

  function ParseMount(s: string, add: bool): Token {
    var p := Find(s, ':');
    if p == |s| then ParseTarget(None, s, add)
    else if !IsPath(s[..p]) then Bad
    else ParseTarget(Some(Str(s[..p])), s[p + 1..], add)
  }

  function ParseToken(s: string, add: bool): Token {
    if !add && s == "all" then All else ParseMount(s, add)
  }

  function OptText(name: string, on: bool): string {
    if on then "," + name else ""
  }

  function FlagsText(o: Flags): (r: string)
    ensures |r| <= 23
  {
    OptText("nosuid", o.nosuid) + (OptText("noexec", o.noexec) + (OptText("nodev", o.nodev) + OptText("ro", o.ro)))
  }

  function PathsText(m: Bindmount): string {
    (if m.src.Some? then m.src.value.text + ":" else "") + m.dst.text
  }

  function MountText(m: Bindmount): string {
    PathsText(m) + FlagsText(m.mntopt)
  }

  /** A mount whose text as one word reads back. */
  predicate Plain(m: Bindmount) {
    && m.op == Add
    && IsTarget(m.dst.text) && ',' !in m.dst.text
    && match m.src
       case None => ':' !in m.dst.text
       case Some(src) => IsPath(src.text) && ':' !in src.text
  }

  ghost predicate Known(name: string, f: Flags) {
    var i := OptIndex(Str(name), 0);
    |name| < WORD_SIZE && ',' !in name && i < |OPT_NAMES| && FlagOf(i) == f
  }

  lemma KnownNames()
    ensures Known("nosuid", Flags(true, false, false, false)) && Known("noexec", Flags(false, true, false, false))
    ensures Known("nodev", Flags(false, false, true, false)) && Known("ro", Flags(false, false, false, true))
  {
    assert OptIndex(OPT_NAMES[0], 0) == 0;
    assert OPT_NAMES[0].text[2] != OPT_NAMES[1].text[2];
    assert OptIndex(OPT_NAMES[1], 0) == 1;
    assert |OPT_NAMES[2].text| == 5;
    assert OptIndex(OPT_NAMES[2], 0) == 2;
    assert |OPT_NAMES[3].text| == 2;
    assert OptIndex(OPT_NAMES[3], 0) == 3;
  }

  lemma LastOpt(name: string, f: Flags)
    requires Known(name, f)
    ensures ParseOpts(name) == Some(f)
  {
    assert name + "" == name;
    FindFirst(name, "", ',');
    assert name[..|name|] == name;
  }

  lemma OptThenRest(name: string, f: Flags, rest: string)
    requires Known(name, f) && ParseOpts(rest).Some?
    ensures ParseOpts(name + "," + rest) == Some(f.Or(ParseOpts(rest).value))
  {
    var s := name + "," + rest;
    assert s == name + ("," + rest);
    assert |rest| > 0;
    FindFirst(name, "," + rest, ',');
    assert s[..|name|] == name && s[|name| + 1..] == rest;
  }

  /** Printed options, each with its comma, that stand for o. */
  predicate Means(s: string, o: Flags) {
    if |s| == 0 then o == NO_FLAGS else s[0] == ',' && ParseOpts(s[1..]) == Some(o)
  }

  lemma MeansLast(s: string, name: string, f: Flags)
    requires |s| > 0 && s[0] == ',' && s[1..] == name && Known(name, f)
    ensures Means(s, f)
  {
    LastOpt(name, f);
  }

  lemma MeansMore(s: string, name: string, f: Flags, rest: string, o: Flags)
    requires |s| > 0 && s[0] == ',' && s[1..] == name + "," + rest && Known(name, f) && ParseOpts(rest) == Some(o)
    ensures Means(s, f.Or(o))
  {
    OptThenRest(name, f, rest);
  }

  lemma OptOn(name: string, f: Flags, tail: string, o: Flags, s: string)
    requires Means(tail, o) && Known(name, f) && |s| > 0 && s[0] == ',' && s[1..] == name + tail
    ensures Means(s, f.Or(o))
  {
    if |tail| == 0 {
      assert f.Or(o) == f && name + tail == name;
      MeansLast(s, name, f);
    } else {
      assert name + tail == name + "," + tail[1..];
      MeansMore(s, name, f, tail[1..], o);
    }
  }

  lemma BehindComma(name: string, tail: string, s: string)
    requires s == ("," + name) + tail
    ensures |s| > 0 && s[0] == ',' && s[1..] == name + tail
  {
  }

  /** One more option in front of a list of options, each with its comma. */
  lemma OptInFront(name: string, f: Flags, on: bool, tail: string, o: Flags, s: string)
    requires Means(tail, o) && Known(name, f) && s == OptText(name, on) + tail
    ensures Means(s, if on then f.Or(o) else o)
  {
    if on {
      BehindComma(name, tail, s);
      OptOn(name, f, tail, o, s);
    } else {
      assert s == tail;
    }
  }

  lemma FlagsReadBack(o: Flags)
    ensures Means(FlagsText(o), o)
  {
    RoReadsBack(o.ro);
    NodevOnReadsBack(o, OptText("ro", o.ro));
  }

  lemma RoReadsBack(on: bool)
    ensures Means(OptText("ro", on), Flags(false, false, false, on))
  {
    KnownNames();
    assert OptText("ro", on) == OptText("ro", on) + "";
    OptInFront("ro", Flags(false, false, false, true), on, "", NO_FLAGS, OptText("ro", on));
  }

  lemma NodevOnReadsBack(o: Flags, ro: string)
    requires Means(ro, Flags(false, false, false, o.ro))
    ensures Means(OptText("nosuid", o.nosuid) + (OptText("noexec", o.noexec) + (OptText("nodev", o.nodev) + ro)), o)
  {
    KnownNames();
    var dev := OptText("nodev", o.nodev) + ro;
    OptInFront("nodev", Flags(false, false, true, false), o.nodev, ro, Flags(false, false, false, o.ro), dev);
    var exec := OptText("noexec", o.noexec) + dev;
    OptInFront("noexec", Flags(false, true, false, false), o.noexec, dev, Flags(false, false, o.nodev, o.ro), exec);
    OptInFront("nosuid", Flags(true, false, false, false), o.nosuid, exec,
      Flags(false, o.noexec, o.nodev, o.ro), OptText("nosuid", o.nosuid) + exec);
  }

  lemma TargetReadsBack(src: Option<Str>, dst: Str, o: Flags)
    requires IsTarget(dst.text) && ',' !in dst.text
    ensures ParseTarget(src, dst.text + FlagsText(o), true) == Mount(Bindmount(src, dst, Add, o))
  {
    var f := FlagsText(o);
    var s := dst.text + f;
    FlagsReadBack(o);
    FindFirst(dst.text, f, ',');
    assert s[..|dst.text|] == dst.text;
    if f != "" {
      assert s[|dst.text| + 1..] == f[1..];
    }
  }

  /** Nothing that ends a word or a source path, and no NUL. */
  predicate Clean(s: string) {
    forall c <- s :: c != ':' && c != ' ' && c != '\t' && c != '\0'
  }

  lemma CleanBoth(a: string, b: string)
    requires Clean(a) && Clean(b)
    ensures Clean(a + b)
  {
  }

  lemma FlagsTextIsClean(o: Flags)
    ensures Clean(FlagsText(o))
  {
    var a, b := OptText("nosuid", o.nosuid), OptText("noexec", o.noexec);
    var c, d := OptText("nodev", o.nodev), OptText("ro", o.ro);
    assert Clean(a);
    assert Clean(b);
    assert Clean(c);
    assert Clean(d);
    CleanBoth(c, d);
    CleanBoth(b, c + d);
    CleanBoth(a, b + (c + d));
  }

  lemma WithSource(s: string, src: string, rest: string)
    requires IsPath(src) && ':' !in src && s == src + ":" + rest
    ensures ParseToken(s, true) == ParseTarget(Some(Str(src)), rest, true)
  {
    assert s == src + (":" + rest);
    FindFirst(src, ":" + rest, ':');
    assert s[..|src|] == src && s[|src| + 1..] == rest;
  }

  lemma WithoutSource(s: string)
    requires ':' !in s
    ensures ParseToken(s, true) == ParseTarget(None, s, true)
  {
    assert forall i :: 0 <= i < |s| ==> s[i] in s;
  }

  lemma PlainParts(s: string, src: Option<Str>, rest: string, t: Token)
    requires ParseTarget(src, rest, true) == t
    requires match src
      case None => ':' !in s && s == rest
      case Some(path) => IsPath(path.text) && ':' !in path.text && s == path.text + ":" + rest
    ensures ParseToken(s, true) == t
  {
    match src
    case None => WithoutSource(s);
    case Some(path) => WithSource(s, path.text, rest);
  }

  lemma Regrouped(a: string, b: string, c: string)
    ensures (a + b) + c == a + (b + c)
  {
  }

  lemma NoColon(dst: string, o: Flags)
    requires ':' !in dst
    ensures ':' !in dst + FlagsText(o)
  {
    FlagsTextIsClean(o);
  }

  /** A plain mount is what its text as one word says. */
  lemma PlainReadsBack(m: Bindmount)
    requires Plain(m)
    ensures ParseToken(MountText(m), true) == Mount(m)
  {
    var rest := m.dst.text + FlagsText(m.mntopt);
    TargetReadsBack(m.src, m.dst, m.mntopt);
    if m.src.Some? {
      Regrouped(m.src.value.text + ":", m.dst.text, FlagsText(m.mntopt));
    } else {
      NoColon(m.dst.text, m.mntopt);
      assert "" + m.dst.text == m.dst.text;
    }
    PlainParts(MountText(m), m.src, rest, Mount(m));
  }

  /** Every word that is read as a mount is read as a plain one. */
  lemma ReadIsPlain(s: string)
    requires ParseToken(s, true).Mount?
    ensures Plain(ParseToken(s, true).mount)
  {
    var p := Find(s, ':');
    if p < |s| {
      assert forall c <- s[..p] :: c != ':';
      TargetIsPlain(Some(Str(s[..p])), s[p + 1..]);
    } else {
      TargetIsPlain(None, s);
    }
  }

  lemma TargetIsPlain(src: Option<Str>, s: string)
    requires ParseTarget(src, s, true).Mount?
    ensures var m := ParseTarget(src, s, true).mount;
      && m.src == src && m.op == Add && m.dst.text <= s
      && IsTarget(m.dst.text) && ',' !in m.dst.text
  {
    var q := Find(s, ',');
    assert forall c <- s[..q] :: c != ',';
  }

  // ---------------------------------------------------------------------
  // A text of mounts.
  // ---------------------------------------------------------------------

  predicate IsBlank(c: char) {
    c == ' ' || c == '\t'
  }

  function WordEnd(s: string): (e: nat)
    ensures e <= |s| && (e < |s| ==> IsBlank(s[e])) && forall j :: 0 <= j < e ==> !IsBlank(s[j])
  {
    if |s| == 0 || IsBlank(s[0]) then 0 else 1 + WordEnd(s[1..])
  }

  /** strtok_r: the words between blanks. */
  function Words(s: string): seq<string>
    decreases |s|
  {
    if |s| == 0 then []
    else if IsBlank(s[0]) then Words(s[1..])
    else
      var e := WordEnd(s);
      [s[..e]] + Words(s[e..])
  }

  datatype Param = Param(mounts: seq<Bindmount>, delall: bool)

  datatype Parsed = Parsed(ok: bool, param: Param)

  predicate HasTarget(ms: seq<Bindmount>, dst: Str) {
    exists m <- ms :: m.dst == dst
  }

  /** Of several mounts with one target the first one counts. */
  function WithToken(p: Param, t: Token): Parsed {
    match t
    case Bad => Parsed(false, p)
    case All => Parsed(true, p.(delall := true))
    case Mount(m) => Parsed(true, if HasTarget(p.mounts, m.dst) then p else p.(mounts := p.mounts + [m]))
  }

  /** What is parsed of the first k words; the first bad one ends it. */
  function ParseTo(p: Param, ts: seq<Token>, k: nat): Parsed
    requires k <= |ts|
  {
    if k == 0 then Parsed(true, p)
    else
      var r := ParseTo(p, ts, k - 1);
      if !r.ok then r else WithToken(r.param, ts[k - 1])
  }

  function Tokens(words: seq<string>, add: bool): (ts: seq<Token>)
    ensures |ts| == |words| && forall i :: 0 <= i < |ts| ==> ts[i] == ParseToken(words[i], add)
  {
    seq(|words|, i requires 0 <= i < |words| => ParseToken(words[i], add))
  }

  function ParseText(p: Param, s: string, add: bool): Parsed {
    var ts := Tokens(Words(s), add);
    ParseTo(p, ts, |ts|)
  }

  function Texts(ms: seq<Bindmount>): (r: seq<string>)
    ensures |r| == |ms| && forall i :: 0 <= i < |ms| ==> r[i] == MountText(ms[i])
  {
    seq(|ms|, i requires 0 <= i < |ms| => MountText(ms[i]))
  }

  /** The first k words, each with a blank behind it. */
  function Spaced(words: seq<string>, k: nat): string
    requires k <= |words|
  {
    if k == 0 then "" else Spaced(words, k - 1) + (words[k - 1] + " ")
  }

  function Text(ms: seq<Bindmount>): string {
    Spaced(Texts(ms), |ms|)
  }

  predicate NoBlank(s: string) {
    forall c <- s :: !IsBlank(c)
  }

  predicate Unblanked(m: Bindmount) {
    NoBlank(m.dst.text) && (m.src.Some? ==> NoBlank(m.src.value.text))
  }

  ghost predicate Distinct(ms: seq<Bindmount>) {
    forall i, j :: 0 <= i < j < |ms| ==> ms[i].dst != ms[j].dst
  }

  lemma {:induction false} WordsOfBoth(a: string, b: string)
    requires |a| > 0 ==> IsBlank(a[|a| - 1])
    ensures Words(a + b) == Words(a) + Words(b)
    decreases |a|
  {
    if |a| == 0 {
      assert a + b == b;
    } else if IsBlank(a[0]) {
      assert (a + b)[1..] == a[1..] + b;
      WordsOfBoth(a[1..], b);
    } else {
      var e := WordEnd(a);
      assert e < |a|;
      WordEndIs(a + b, e);
      assert (a + b)[..e] == a[..e] && (a + b)[e..] == a[e..] + b;
      WordsOfBoth(a[e..], b);
    }
  }

  lemma WordEndIs(s: string, e: nat)
    requires e <= |s| && (e < |s| ==> IsBlank(s[e])) && forall j :: 0 <= j < e ==> !IsBlank(s[j])
    ensures WordEnd(s) == e
  {
  }

  lemma OneWord(w: string)
    requires |w| > 0 && NoBlank(w)
    ensures Words(w + " ") == [w]
  {
    var s := w + " ";
    assert forall j :: 0 <= j < |w| ==> s[j] in w;
    WordEndIs(s, |w|);
    assert s[..|w|] == w && s[|w|..] == " ";
    assert " "[1..] == "";
    assert Words(" ") == [];
  }

  lemma TextIsOneWord(m: Bindmount)
    requires Plain(m) && Unblanked(m)
    ensures |MountText(m)| > 0 && NoBlank(MountText(m))
  {
    FlagsTextIsClean(m.mntopt);
    var src := if m.src.Some? then m.src.value.text + ":" else "";
    assert NoBlank(src);
    assert MountText(m) == src + m.dst.text + FlagsText(m.mntopt);
  }

  lemma {:induction false} WordsOfSpaced(words: seq<string>, k: nat)
    requires k <= |words| && forall w <- words :: |w| > 0 && NoBlank(w)
    ensures Words(Spaced(words, k)) == words[..k]
  {
    if k > 0 {
      WordsOfSpaced(words, k - 1);
      OneWord(words[k - 1]);
      WordsOfBoth(Spaced(words, k - 1), words[k - 1] + " ");
      assert words[..k] == words[..k - 1] + [words[k - 1]];
    }
  }

  lemma {:induction false} TokensReadBack(ms: seq<Bindmount>, ts: seq<Token>, k: nat)
    requires k <= |ms| == |ts| && Distinct(ms)
    requires forall i :: 0 <= i < |ms| ==> ts[i] == Mount(ms[i])
    ensures ParseTo(Param([], false), ts, k) == Parsed(true, Param(ms[..k], false))
  {
    if k > 0 {
      TokensReadBack(ms, ts, k - 1);
      NextMount(ms, k - 1);
    }
  }

  lemma NextMount(ms: seq<Bindmount>, k: nat)
    requires k < |ms| && Distinct(ms)
    ensures WithToken(Param(ms[..k], false), Mount(ms[k])) == Parsed(true, Param(ms[..k + 1], false))
  {
    assert !HasTarget(ms[..k], ms[k].dst);
    assert ms[..k + 1] == ms[..k] + [ms[k]];
  }

  lemma {:induction false} WordsHaveNoBlank(s: string)
    ensures forall w <- Words(s) :: NoBlank(w)
    decreases |s|
  {
    if |s| > 0 {
      if IsBlank(s[0]) {
        WordsHaveNoBlank(s[1..]);
      } else {
        WordsHaveNoBlank(s[WordEnd(s)..]);
      }
    }
  }

  lemma ReadIsUnblanked(s: string)
    requires NoBlank(s) && ParseToken(s, true).Mount?
    ensures Unblanked(ParseToken(s, true).mount)
  {
    var p := Find(s, ':');
    if p < |s| {
      TargetIsPlain(Some(Str(s[..p])), s[p + 1..]);
    } else {
      TargetIsPlain(None, s);
    }
  }

  lemma {:induction false} ParsedIsPlain(ts: seq<Token>, k: nat)
    requires k <= |ts| && forall i :: 0 <= i < |ts| && ts[i].Mount? ==> Plain(ts[i].mount) && Unblanked(ts[i].mount)
    ensures var ms := ParseTo(Param([], false), ts, k).param.mounts;
      Distinct(ms) && forall m <- ms :: Plain(m) && Unblanked(m)
  {
    if k > 0 {
      ParsedIsPlain(ts, k - 1);
    }
  }

  lemma PrintedReadsBack(ms: seq<Bindmount>)
    requires Distinct(ms) && forall m <- ms :: Plain(m) && Unblanked(m)
    ensures ParseText(Param([], false), Text(ms), true) == Parsed(true, Param(ms, false))
  {
    var words := Texts(ms);
    forall i | 0 <= i < |ms|
      ensures |words[i]| > 0 && NoBlank(words[i]) && ParseToken(words[i], true) == Mount(ms[i])
    {
      TextIsOneWord(ms[i]);
      PlainReadsBack(ms[i]);
    }
    WordsOfSpaced(words, |ms|);
    assert words[..|ms|] == words && ms[..|ms|] == ms;
    TokensReadBack(ms, Tokens(words, true), |ms|);
  }

  /** Printed mounts read back as they are exactly when they are plain, hold no blanks and have
      targets of their own. */
  lemma RoundTripExactly(ms: seq<Bindmount>)
    ensures ParseText(Param([], false), Text(ms), true) == Parsed(true, Param(ms, false)) <==>
      Distinct(ms) && forall m <- ms :: Plain(m) && Unblanked(m)
  {
    var words := Words(Text(ms));
    WordsHaveNoBlank(Text(ms));
    var ts := Tokens(words, true);
    forall i | 0 <= i < |ts| && ts[i].Mount?
      ensures Plain(ts[i].mount) && Unblanked(ts[i].mount)
    {
      ReadIsPlain(words[i]);
      ReadIsUnblanked(words[i]);
    }
    ParsedIsPlain(ts, |ts|);
    if Distinct(ms) && forall m <- ms :: Plain(m) && Unblanked(m) {
      PrintedReadsBack(ms);
    }
  }

  // ---------------------------------------------------------------------
  // Merging.
  // ---------------------------------------------------------------------

  /** The first k old mounts whose target no new mount has. */
  function KeptTo(ms: seq<Bindmount>, new_: seq<Bindmount>, k: nat): seq<Bindmount>
    requires k <= |ms|
  {
    if k == 0 then []
    else if HasTarget(new_, ms[k - 1].dst) then KeptTo(ms, new_, k - 1)
    else KeptTo(ms, new_, k - 1) + [ms[k - 1]]
  }

  function AddsTo(ms: seq<Bindmount>, k: nat): seq<Bindmount>
    requires k <= |ms|
  {
    if k == 0 then []
    else if ms[k - 1].op.Add? then AddsTo(ms, k - 1) + [ms[k - 1]]
    else AddsTo(ms, k - 1)
  }

  /** What bindmount2str prints: the old mounts that stay, then those to be added. */
  function Merged(ms: seq<Bindmount>, new_: Param): seq<Bindmount> {
    (if new_.delall then [] else KeptTo(ms, new_.mounts, |ms|)) + AddsTo(new_.mounts, |new_.mounts|)
  }

  lemma {:induction false} KeptIs(ms: seq<Bindmount>, new_: seq<Bindmount>, k: nat)
    requires k <= |ms|
    ensures forall m :: m in KeptTo(ms, new_, k) <==> m in ms[..k] && !HasTarget(new_, m.dst)
    ensures Distinct(ms) ==> Distinct(KeptTo(ms, new_, k))
  {
    if k > 0 {
      KeptIs(ms, new_, k - 1);
      assert ms[..k] == ms[..k - 1] + [ms[k - 1]];
    }
  }

  lemma {:induction false} AddsIs(ms: seq<Bindmount>, k: nat)
    requires k <= |ms|
    ensures forall m :: m in AddsTo(ms, k) <==> m in ms[..k] && m.op.Add?
    ensures Distinct(ms) ==> Distinct(AddsTo(ms, k))
  {
    if k > 0 {
      AddsIs(ms, k - 1);
      assert ms[..k] == ms[..k - 1] + [ms[k - 1]];
    }
  }

  lemma MergedIs(ms: seq<Bindmount>, new_: Param)
    ensures forall m :: m in Merged(ms, new_) <==>
      (!new_.delall && m in ms && !HasTarget(new_.mounts, m.dst)) || (m in new_.mounts && m.op.Add?)
    ensures Distinct(ms) && Distinct(new_.mounts) ==> Distinct(Merged(ms, new_))
  {
    KeptIs(ms, new_.mounts, |ms|);
    AddsIs(new_.mounts, |new_.mounts|);
    assert ms[..|ms|] == ms && new_.mounts[..|new_.mounts|] == new_.mounts;
  }

  /** Text printed for plain mounts reads back as the old ones whose target is not among the new,
      none of them where all are to be deleted, and the new ones to be added. */
  lemma MergedReadsBack(ms: seq<Bindmount>, new_: Param)
    requires Distinct(ms) && Distinct(new_.mounts)
    requires forall m <- ms :: Plain(m) && Unblanked(m)
    requires forall m <- new_.mounts :: m.op.Add? ==> Plain(m) && Unblanked(m)
    ensures ParseText(Param([], false), Text(Merged(ms, new_)), true) == Parsed(true, Param(Merged(ms, new_), false))
  {
    MergedIs(ms, new_);
    RoundTripExactly(Merged(ms, new_));
  }

  // ---------------------------------------------------------------------
  // The parser.
  // ---------------------------------------------------------------------

  lemma FirstIsIndex(name: Str, i: nat)
    requires i <= |OPT_NAMES| && (i < |OPT_NAMES| ==> OPT_NAMES[i] == name)
    requires forall j :: 0 <= j < i ==> OPT_NAMES[j] != name
    ensures OptIndex(name, 0) == i
  {
    var k := OptIndex(name, 0);
    assert k < |OPT_NAMES| ==> OPT_NAMES[k] == name;
  }

  /** get_mount_opt: the number of the option, or that of options where it is none. */
  method GetMountOpt(name: Str) returns (i: nat)
    ensures i == OptIndex(name, 0)
  {
    i := 0;
    while i < |OPT_NAMES| && OPT_NAMES[i] != name
      invariant i <= |OPT_NAMES| && forall j :: 0 <= j < i ==> OPT_NAMES[j] != name
    {
      i := i + 1;
    }
    FirstIsIndex(name, i);
  }

  function Joined(f: Flags, more: Option<Flags>): Option<Flags> {
    if more.None? then None else Some(f.Or(more.value))
  }

  /** The option word at sp, and where the next one starts. */
  method ParseOpt(s: string, sp: nat) returns (opt: Option<Flags>, next: nat)
    requires sp <= |s|
    ensures sp < next <= |s| + 1
    ensures opt.None? ==> ParseOpts(s[sp..]) == None
    ensures opt.Some? ==>
      ParseOpts(s[sp..]) == if next < |s| then Joined(opt.value, ParseOpts(s[next..])) else opt
  {
    ghost var t := s[sp..];
    var len := Find(s[sp..], ',');
    var q := sp + len;
    next := q + 1;
    if len >= WORD_SIZE {
      return None, next;
    }
    var i := GetMountOpt(Str(s[sp..q]));
    assert t[..len] == s[sp..q];
    if i == |OPT_NAMES| {
      return None, next;
    }
    assert next < |s| ==> t[len + 1..] == s[next..];
    opt := Some(FlagOf(i));
  }

  /** The loop over the options: sp is where a word starts, p how far the text was seen. */
  method ParseOptsFrom(s: string, sp0: nat, p0: nat) returns (opts: Option<Flags>)
    requires p0 < |s| ==> sp0 <= |s|
    ensures opts == if p0 < |s| then ParseOpts(s[sp0..]) else Some(NO_FLAGS)
  {
    var sp, p, flags := sp0, p0, NO_FLAGS;
    ghost var all := if p0 < |s| then ParseOpts(s[sp0..]) else Some(NO_FLAGS);
    while p < |s|
      invariant p < |s| ==> sp <= |s|
      invariant all == if p < |s| then Joined(flags, ParseOpts(s[sp..])) else Some(flags)
      decreases |s| + 1 - sp
    {
      var opt, next := ParseOpt(s, sp);
      if opt.None? {
        return None;
      }
      flags := flags.Or(opt.value);
      sp, p := next, next;
    }
    opts := Some(flags);
  }

  method OptsBehindAt(s: string, q: nat, add: bool, ghost rest: string, ghost len: nat) returns (opts: Option<Flags>)
    requires len <= |rest| <= |s| && q == |s| - |rest| + len && rest == s[|s| - |rest|..]
    ensures opts == OptsBehind(rest, len, add)
  {
    opts := ParseOptsFrom(s, q + 1, if add then q else q + 1);
    assert q < |s| ==> rest[len + 1..] == s[q + 1..];
  }

  method ParseTargetAt(s: string, sp: nat, src: Option<Str>, add: bool, ghost rest: string) returns (t: Token)
    requires sp <= |s| && rest == s[sp..]
    ensures t == ParseTarget(src, rest, add)
  {
    var len := Find(s[sp..], ',');
    var q := sp + len;
    assert rest[..len] == s[sp..q];
    if len == 0 || s[sp] != '/' || len > STR_SIZE - 1 || len == 1 {
      return Bad;
    }
    var opts := OptsBehindAt(s, q, add, rest, len);
    if opts.None? {
      return Bad;
    }
    t := Mount(Bindmount(src, Str(s[sp..q]), if add then Add else Del, opts.value));
  }

  method ParseMountText(s: string, add: bool) returns (t: Token)
    ensures t == ParseMount(s, add)
  {
    var p := Find(s, ':');
    if p == |s| {
      t := ParseTargetAt(s, 0, None, add, s);
      return;
    }
    if s[0] != '/' || p == 0 || p > STR_SIZE - 1 {
      return Bad;
    }
    t := ParseTargetAt(s, p + 1, Some(Str(s[..p])), add, s[p + 1..]);
  }

  class BindmountParam {
    var mounts: seq<Bindmount>
    var delall: bool

    constructor ()
      ensures Value() == Param([], false)
    {
      mounts, delall := [], false;
    }

    function Value(): Param
      reads this
    {
      Param(mounts, delall)
    }

    method FindBindmount(dst: Str) returns (found: bool)
      ensures found == HasTarget(mounts, dst)
    {
      var i := 0;
      while i < |mounts|
        invariant i <= |mounts| && forall j :: 0 <= j < i ==> mounts[j].dst != dst
      {
        if mounts[i].dst == dst {
          assert mounts[i] in mounts;
          return true;
        }
        i := i + 1;
      }
      return false;
    }

    method AddBindmount(m: Bindmount)
      modifies this
      ensures Value() == Param(old(mounts) + [m], old(delall))
    {
      mounts := mounts + [m];
    }

    method ParseBindmountStr(s: string, add: bool) returns (ok: bool)
      modifies this
      ensures Parsed(ok, Value()) == WithToken(old(Value()), ParseToken(s, add))
    {
      if !add && s == "all" {
        delall := true;
        return true;
      }
      var t := ParseMountText(s, add);
      match t
      case Bad => ok := false;
      case Mount(m) =>
        var found := FindBindmount(m.dst);
        if !found {
          AddBindmount(m);
        }
        ok := true;
    }

    /** One word of several. */
    method ParseWord(word: string, add: bool, ghost p: Param, ghost ts: seq<Token>, ghost k: nat) returns (ok: bool)
      requires k < |ts| && ts[k] == ParseToken(word, add) && ParseTo(p, ts, k) == Parsed(true, Value())
      modifies this
      ensures Parsed(ok, Value()) == ParseTo(p, ts, k + 1)
    {
      ghost var t := ts[k];
      ok := ParseBindmountStr(word, add);
    }

    method ParseWords(words: seq<string>, add: bool, ghost ts: seq<Token>) returns (ok: bool)
      requires ts == Tokens(words, add)
      modifies this
      ensures Parsed(ok, Value()) == ParseTo(old(Value()), ts, |ts|)
    {
      ghost var p := Value();
      var k := 0;
      ok := true;
      while k < |words| && ok
        invariant k <= |ts| && Parsed(ok, Value()) == ParseTo(p, ts, k)
        decreases |words| - k, ok
      {
        ok := ParseWord(words[k], add, p, ts, k);
        k := k + 1;
      }
      BadEnds(p, ts, k, |ts|);
    }

    /** parse_bindmount: the words one by one, until a bad one. */
    method ParseBindmount(s: string, add: bool) returns (ok: bool)
      modifies this
      ensures Parsed(ok, Value()) == ParseText(old(Value()), s, add)
    {
      ok := ParseWords(Words(s), add, Tokens(Words(s), add));
    }
  }

  /** After a bad word nothing more is parsed. */
  lemma {:induction false} BadEnds(p: Param, ts: seq<Token>, k: nat, n: nat)
    requires k <= n <= |ts| && (k == n || !ParseTo(p, ts, k).ok)
    ensures ParseTo(p, ts, n) == ParseTo(p, ts, k)
  {
    if k < n {
      BadEnds(p, ts, k, n - 1);
    }
  }

  // ---------------------------------------------------------------------
  // The printer.
  // ---------------------------------------------------------------------

  /** merge_bindmount; old_ is null where all mounts are to be deleted. */
  method MergeBindmount(old_: BindmountParam?, mnt: BindmountParam, merged: BindmountParam)
    requires merged != old_ && merged != mnt && merged.Value() == Param([], false)
    modifies merged
    ensures |mnt.mounts| == 0 ==> merged.mounts == []
    ensures |mnt.mounts| > 0 ==>
      var kept := if old_ == null then [] else KeptTo(old_.mounts, mnt.mounts, |old_.mounts|);
      merged.mounts == kept + AddsTo(mnt.mounts, |mnt.mounts|)
  {
    if |mnt.mounts| == 0 {
      return;
    }
    if old_ != null {
      var i := 0;
      while i < |old_.mounts|
        invariant i <= |old_.mounts| && merged.mounts == KeptTo(old_.mounts, mnt.mounts, i)
      {
        var found := mnt.FindBindmount(old_.mounts[i].dst);
        if !found {
          merged.AddBindmount(old_.mounts[i]);
        }
        i := i + 1;
      }
    }
    ghost var kept := merged.mounts;
    var i := 0;
    while i < |mnt.mounts|
      invariant i <= |mnt.mounts| && merged.mounts == kept + AddsTo(mnt.mounts, i)
    {
      if mnt.mounts[i].op.Add? {
        merged.AddBindmount(mnt.mounts[i]);
      }
      i := i + 1;
    }
  }

  /** The room bindmount2str reckons with for the first k mounts. */
  function RoomTo(ms: seq<Bindmount>, k: nat): (len: nat)
    requires k <= |ms|
  {
    if k == 0 then 0
    else
      var m := ms[k - 1];
      RoomTo(ms, k - 1) + (if m.src.Some? then |m.src.value.text| else 0) + |m.dst.text| + FLAGS_BUF + 3
  }

  const FLAGS_BUF: nat := 64

  /** The text of the first k mounts leaves something of the room that was reckoned with. */
  lemma {:induction false} RoomIsEnough(ms: seq<Bindmount>, k: nat)
    requires k <= |ms|
    ensures |Spaced(Texts(ms), k)| + 42 * k <= RoomTo(ms, k)
  {
    if k > 0 {
      RoomIsEnough(ms, k - 1);
      RoomOfOne(ms[k - 1]);
      SpacedLength(ms, k);
    }
  }

  lemma SpacedLength(ms: seq<Bindmount>, k: nat)
    requires 0 < k <= |ms|
    ensures |Spaced(Texts(ms), k)| == |Spaced(Texts(ms), k - 1)| + |MountText(ms[k - 1])| + 1
  {
  }

  lemma RoomOfOne(m: Bindmount)
    ensures |MountText(m)| + 1 + 42 <= (if m.src.Some? then |m.src.value.text| else 0) + |m.dst.text| + FLAGS_BUF + 3
  {
  }

  lemma {:induction false} RoomGrows(ms: seq<Bindmount>, j: nat, k: nat)
    requires j <= k <= |ms|
    ensures RoomTo(ms, j) <= RoomTo(ms, k)
  {
    if j < k {
      RoomGrows(ms, j, k - 1);
    }
  }

  method PrintOpt(buf: array<char>, ghost t: string, len: nat, name: string, on: bool) returns (total: nat)
    requires FLAGS_BUF <= buf.Length && len == |t| && Holds(buf, FLAGS_BUF, t)
    modifies buf
    ensures total == len + |OptText(name, on)| && Holds(buf, FLAGS_BUF, t + OptText(name, on))
  {
    total := len;
    if on {
      var more := Append(buf, FLAGS_BUF, t, len, "," + name);
      total := len + more;
    } else {
      assert t + "" == t;
    }
  }

  lemma FourPieces(a: string, b: string, c: string, d: string)
    ensures "" + a == a && a + b + c + d == a + (b + (c + d))
  {
  }

  /** get_mount_optnames */
  method GetMountOptnames(o: Flags, buf: array<char>)
    requires FLAGS_BUF <= buf.Length
    modifies buf
    ensures Holds(buf, FLAGS_BUF, FlagsText(o))
  {
    buf[0] := '\0';
    ghost var a, b, c, d := OptText("nosuid", o.nosuid), OptText("noexec", o.noexec), OptText("nodev", o.nodev),
      OptText("ro", o.ro);
    FourPieces(a, b, c, d);
    var n := PrintOpt(buf, "", 0, "nosuid", o.nosuid);
    n := PrintOpt(buf, a, n, "noexec", o.noexec);
    n := PrintOpt(buf, a + b, n, "nodev", o.nodev);
    n := PrintOpt(buf, a + b + c, n, "ro", o.ro);
  }

  /** The string a buffer holds that is large enough for it. */
  method HeldString(buf: array<char>, size: nat, ghost t: string) returns (s: string)
    requires 0 < size <= buf.Length && |t| < size && NoNul(t) && Holds(buf, size, t)
    ensures s == t
  {
    CStringIs(buf[..], |t|);
    s := CString(buf[..]);
  }

  lemma FlagsHaveNoNul(o: Flags)
    ensures NoNul(FlagsText(o))
  {
    FlagsTextIsClean(o);
    var f := FlagsText(o);
    assert forall i :: 0 <= i < |f| ==> f[i] in f;
  }

  lemma Glued(t: string, paths: string, flags: string)
    ensures t + paths + (flags + " ") == t + ((paths + flags) + " ")
  {
  }

  /** One mount behind what the buffer holds already; each piece fits. */
  method PrintMount(buf: array<char>, size: nat, ghost t: string, len: nat, m: Bindmount) returns (total: nat)
    requires len + |MountText(m)| + 1 < size <= buf.Length && len == |t| && Holds(buf, size, t)
    modifies buf
    ensures total == len + |MountText(m)| + 1 && Holds(buf, size, t + (MountText(m) + " "))
  {
    var more := Append(buf, size, t, len, PathsText(m));
    var opts := new char[FLAGS_BUF];
    GetMountOptnames(m.mntopt, opts);
    FlagsHaveNoNul(m.mntopt);
    var flags := HeldString(opts, FLAGS_BUF, FlagsText(m.mntopt));
    var rest := PrintPiece(buf, size, t, PathsText(m), len + more, flags);
    total := len + more + rest;
  }

  method PrintPiece(buf: array<char>, size: nat, ghost t: string, ghost paths: string, len: nat, flags: string)
      returns (rest: nat)
    requires 0 < size <= buf.Length && len == |t| + |paths| && Holds(buf, size, t + paths)
    modifies buf
    ensures rest == |flags| + 1 && Holds(buf, size, t + ((paths + flags) + " "))
  {
    Glued(t, paths, flags);
    rest := Append(buf, size, t + paths, len, flags + " ");
  }

  method ReckonRoom(ms: seq<Bindmount>) returns (len: nat)
    ensures len == RoomTo(ms, |ms|)
  {
    len := 0;
    var i := 0;
    while i < |ms|
      invariant i <= |ms| && len == RoomTo(ms, i)
    {
      len := len + (if ms[i].src.Some? then |ms[i].src.value.text| else 0) + |ms[i].dst.text| + FLAGS_BUF + 3;
      i := i + 1;
    }
  }

  lemma RoomForOneMore(ms: seq<Bindmount>, i: nat)
    requires i < |ms|
    ensures |Spaced(Texts(ms), i)| + |MountText(ms[i])| + 1 < RoomTo(ms, |ms|)
    ensures Spaced(Texts(ms), i + 1) == Spaced(Texts(ms), i) + (MountText(ms[i]) + " ")
  {
    RoomIsEnough(ms, i + 1);
    RoomGrows(ms, i + 1, |ms|);
  }

  method PrintMounts(ms: seq<Bindmount>) returns (buf: array<char>)
    ensures fresh(buf) && |Text(ms)| < buf.Length && Holds(buf, buf.Length, Text(ms))
  {
    var len := ReckonRoom(ms);
    buf := new char[len + 1];
    buf[0] := '\0';
    RoomIsEnough(ms, |ms|);
    if len > 0 {
      var sp, i := 0, 0;
      ghost var t := "";
      while i < |ms|
        invariant i <= |ms| && t == Spaced(Texts(ms), i)
        invariant sp == |t| < len && Holds(buf, len, t)
      {
        RoomForOneMore(ms, i);
        sp := PrintMount(buf, len, t, sp, ms[i]);
        t := t + (MountText(ms[i]) + " ");
        i := i + 1;
      }
    }
  }

  /** bindmount2str: nothing is returned where nothing is to be changed. */
  method Bindmount2Str(old_: BindmountParam?, mnt: BindmountParam?) returns (out: Option<array<char>>)
    ensures out.None? <==> mnt == null || (!mnt.delall && |mnt.mounts| == 0)
    ensures out.Some? ==>
      var before := if old_ == null then [] else old_.mounts;
      var t, buf := Text(Merged(before, mnt.Value())), out.value;
      |t| < buf.Length && Holds(buf, buf.Length, t)
  {
    if mnt == null || (!mnt.delall && |mnt.mounts| == 0) {
      return None;
    }
    var merged := new BindmountParam();
    MergeBindmount(if mnt.delall then null else old_, mnt, merged);
    assert merged.mounts == Merged(if old_ == null then [] else old_.mounts, mnt.Value());
    var buf := PrintMounts(merged.mounts);
    out := Some(buf);
  }
}
