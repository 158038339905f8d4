/** What the pieces of a stored line say, alone and behind another line: a buffer may end anywhere. */
module ConfigPieces {
  import opened ConfigStore
  import opened ConfigLine
  import opened CText
  import opened Common

  // ---------------------------------------------------------------------
  // A line written behind an unended one.
  // ---------------------------------------------------------------------

  /** A line of blanks; backslashes do not count. */
  predicate Blank(line: Str) {
    forall c <- Unescape(line.text, false) :: IsSpace(c)
  }

  /** Whether a backslash at the end of a protects what follows. */
  function Protects(a: string, protected: bool): bool {
    if |a| == 0 then protected else Protects(a[1..], a[0] == '\\' && !protected)
  }

  lemma {:induction false} UnescapeBoth(a: string, b: string, protected: bool)
    ensures Unescape(a + b, protected) == Unescape(a, protected) + Unescape(b, Protects(a, protected))
  {
    if |a| == 0 {
      assert a + b == b;
    } else {
      assert (a + b)[1..] == a[1..] + b;
      UnescapeBoth(a[1..], b, a[0] == '\\' && !protected);
    }
  }

  lemma {:induction false} BlanksAreSkipped(u: string, x: string)
    requires forall c <- u :: IsSpace(c)
    ensures SkipSpace(u + x) == SkipSpace(x)
  {
    if |u| == 0 {
      assert u + x == x;
    } else {
      assert (u + x)[1..] == u[1..] + x;
      BlanksAreSkipped(u[1..], x);
    }
  }

  lemma {:induction false} BlanksAreKept(u: string)
    requires forall c <- u :: IsSpace(c)
    ensures Uncomment(u, Unquoted(true)) == u && AfterAll(u, Unquoted(true)) == Unquoted(true)
  {
    if |u| > 0 {
      assert u[0] in u && u[0] != '#' && !IsQuote(u[0]);
      assert forall c <- u[1..] :: c in u;
      BlanksAreKept(u[1..]);
      UncommentStep(u, Unquoted(true));
      assert u == [u[0]] + u[1..];
    }
  }

  lemma {:induction false} SkipKeepsTheRest(u: string, x: string)
    requires !forall c <- u :: IsSpace(c)
    ensures SkipSpace(u + x) == SkipSpace(u) + x && |SkipSpace(u)| > 0 && !IsSpace(SkipSpace(u)[0])
  {
    assert (u + x)[0] == u[0];
    if IsSpace(u[0]) {
      assert (u + x)[1..] == u[1..] + x;
      assert u == [u[0]] + u[1..];
      SkipKeepsTheRest(u[1..], x);
    }
  }

  lemma {:induction false} PlainProtectsNothing(s: string)
    requires '\\' !in s
    ensures !Protects(s, false)
  {
    if |s| > 0 {
      assert s[0] in s && forall c <- s[1..] :: c in s;
      PlainProtectsNothing(s[1..]);
    }
  }

  lemma UnescapeBehind(a: string, r: string)
    requires |r| > 0 ==> r[0] != '\\'
    ensures Unescape(a + r, false) == Unescape(a, false) + Unescape(r, false)
  {
    UnescapeBoth(a, r, false);
    assert |r| > 0 ==> Unescape(r, true) == Unescape(r, false);
  }

  lemma UnescapeOfStart(a: string, b: string)
    requires a <= b
    ensures Unescape(a, false) <= Unescape(b, false)
  {
    assert b == a + b[|a|..];
    UnescapeBoth(a, b[|a|..], false);
  }

  /** Blanks in front of the start of a stored line change nothing. */
  lemma GluedToBlank(last: Str, r: string)
    requires Blank(last) && (|r| > 0 ==> r[0] != '\\')
    ensures ParseLine(Str(last.text + r)) == ParseLine(Str(r))
  {
    var u, w := Unescape(last.text, false), Unescape(r, false);
    UnescapeBehind(last.text, r);
    BlanksAreKept(u);
    BlanksAreSkipped(u, Uncomment(w, Unquoted(true)));
    UncommentBoth(u, w, Unquoted(true));
  }

  lemma {:induction false} NothingBehindBlanks(u: string)
    requires forall c <- u :: IsSpace(c)
    ensures |SkipSpace(u)| == 0
  {
    if |u| > 0 {
      NothingBehindBlanks(u[1..]);
    }
  }

  lemma BlankSaysNothing(last: Str)
    requires Blank(last)
    ensures ParseLine(last) == Nothing
  {
    BlanksAreKept(Unescape(last.text, false));
    NothingBehindBlanks(Unescape(last.text, false));
  }

  lemma StoredStart(name: Str, val: Str)
    requires PlainName(name)
    ensures var w := Unescape(Render(name, val).text, false);
      |w| > |name.text| && w[..|name.text|] == name.text && w[|name.text|] == '='
  {
    var n, v := name.text, val.text + "\"\n";
    assert Render(name, val).text == n + "=\"" + v;
    UnescapeHead(name, v);
    assert (n + "=\"" + Unescape(v, false))[..|n|] == n;
  }

  lemma UnescapeHead(name: Str, x: string)
    requires PlainName(name)
    ensures Unescape(name.text + "=\"" + x, false) == name.text + "=\"" + Unescape(x, false)
  {
    var h := name.text + "=\"";
    assert '\\' !in h;
    UnescapePlain(h);
    PlainProtectsNothing(h);
    UnescapeBoth(h, x, false);
  }

  /** Behind any other line that does not name it, the name of a line is lost, however much of the
      line is read with it. */
  lemma GluedToOther(last: Str, name: Str, val: Str, r: string)
    requires PlainName(name) && !Blank(last) && r <= Render(name, val).text
    requires !Names(CONF_FILE, last, name)
    ensures !Names(CONF_FILE, Str(last.text + r), name)
  {
    var u, x := Unescape(last.text, false), Unescape(r, false);
    var q := Unquoted(true);
    assert |r| > 0 ==> r[0] == name.text[0] && name.text[0] in name.text;
    UnescapeBehind(last.text, r);
    UnescapeOfStart(r, Render(name, val).text);
    StoredStart(name, val);
    UncommentBoth(u, x, q);
    if Uncomment(u, q) == u {
      var y := Uncomment(x, AfterAll(u, q));
      SkipKeepsTheRest(u, y);
      SkipKeepsTheRest(u, "");
      assert u + "" == u;
      NameIsElsewhere(SkipSpace(u), y, Unescape(Render(name, val).text, false), name);
    }
  }

  /** A name read from s + x was read from s, or is no name of x. */
  lemma NameIsElsewhere(s: string, x: string, w: string, name: Str)
    requires |s| > 0 && !IsSpace(s[0]) && x <= w && PlainName(name)
    requires |w| > |name.text| && w[..|name.text|] == name.text && w[|name.text|] == '='
    requires var p := ParseTrimmed(s); p.Setting? ==> p.name != name
    ensures var p := ParseTrimmed(s + x); p.Setting? ==> p.name != name
  {
    var n, y := name.text, s + x;
    if ParseTrimmed(y).Setting? && ParseTrimmed(y).name == name {
      var p := |n|;
      NameStands(y, n);
      if |s| <= p {
        NoSignBehind(s, x, w, n);
      } else {
        assert s[p] == y[p] && s[..p] == y[..p];
        EqualSignSurvives(s, n);
      }
    }
  }

  lemma NoSignBehind(s: string, x: string, w: string, n: string)
    requires 0 < |s| <= |n| < |s + x| && x <= w && n <= w && '=' !in n
    ensures (s + x)[|n|] != '='
  {
    var i := |n| - |s|;
    assert (s + x)[|n|] == x[i] == w[i] == n[i];
  }

  lemma NameStands(s: string, n: string)
    requires ParseTrimmed(s).Setting? && ParseTrimmed(s).name == Str(n)
    ensures s[0] != '#' && |n| < |s| && |n| < NAME_SIZE && s[|n|] == '=' && s[..|n|] == n && '=' !in n
  {
    var t := DropLastQuote(StripEnd(s));
    var p := Find(t, '=');
    assert t <= s && t[..p] == n;
    assert s[..p] == t[..p];
  }

  /** Trimming the end does not reach an equal sign. */
  lemma EqualSignSurvives(s: string, n: string)
    requires |n| < |s| && |n| < NAME_SIZE && s[|n|] == '=' && s[0] != '#' && s[..|n|] == n && '=' !in n
    ensures ParseTrimmed(s).Setting? && ParseTrimmed(s).name == Str(n)
  {
    StripKeeps(s, |n|);
    var t := DropLastQuote(StripEnd(s));
    assert t <= s && |n| < |t|;
    assert t[..|n|] == n;
    assert t == n + t[|n|..];
    FindFirst(n, t[|n|..], '=');
  }

  lemma {:induction false} StripKeeps(s: string, p: nat)
    requires p < |s| && !IsSpace(s[p])
    ensures p < |StripEnd(s)|
  {
    if IsSpace(s[|s| - 1]) {
      StripKeeps(s[..|s| - 1], p);
    }
  }

  // ---------------------------------------------------------------------
  // The start of a stored line.
  // ---------------------------------------------------------------------

  lemma {:induction false} UnescapeShortens(s: string, protected: bool)
    ensures |Unescape(s, protected)| <= |s| && forall c <- Unescape(s, protected) :: c in s
  {
    if |s| > 0 {
      UnescapeShortens(s[1..], s[0] == '\\' && !protected);
      assert s == [s[0]] + s[1..];
    }
  }

  lemma TrimmedShortens(u: string)
    ensures |Trimmed(u)| <= |u| && forall c <- Trimmed(u) :: c in u
  {
    var r := Uncomment(u, Unquoted(true));
    assert forall i :: 0 <= i < |r| ==> r[i] == u[i];
    var s := Trimmed(u);
    assert forall i :: 0 <= i < |s| ==> s[i] == r[|r| - |s| + i];
  }

  lemma NoSignInTrimmed(s: string)
    requires '=' !in s
    ensures ParseTrimmed(s) == Nothing
  {
    var e := DropLastQuote(StripEnd(s));
    assert forall i :: 0 <= i < |e| ==> e[i] == s[i];
    assert Find(e, '=') == |e|;
  }

  /** Without an equal sign nothing is said. */
  lemma NoSignSaysNothing(t: string)
    requires '=' !in t
    ensures ParseLine(Str(t)) == Nothing
  {
    UnescapeShortens(t, false);
    TrimmedShortens(Unescape(t, false));
    NoSignInTrimmed(Trimmed(Unescape(t, false)));
  }

  /** Name and value are no longer than what they were read from. */
  lemma SettingFits(t: string)
    requires ParseLine(Str(t)).Setting?
    ensures var p := ParseLine(Str(t)); |p.name.text| + 1 + |p.value.text| <= |t|
  {
    UnescapeShortens(t, false);
    TrimmedShortens(Unescape(t, false));
    SettingIsLonger(DropLastQuote(StripEnd(Trimmed(Unescape(t, false)))));
  }

  lemma SettingIsLonger(s: string)
    requires ParseSetting(s).Setting?
    ensures var p := ParseSetting(s); |p.name.text| + 1 + |p.value.text| <= |s|
  {
  }

  lemma NewlineSaysNothing(a: string)
    ensures ParseLine(Str(a + "\n")) == ParseLine(Str(a))
  {
    var u, q := Unescape(a, false), Unquoted(true);
    UnescapeBehind(a, "\n");
    assert "\n"[1..] == "";
    assert Unescape("\n", false) == "\n" && Uncomment("\n", AfterAll(u, q)) == "\n";
    UncommentBoth(u, "\n", q);
    if Uncomment(u, q) == u {
      assert SkipSpace("\n") == "";
      if forall c <- u :: IsSpace(c) {
        BlanksAreSkipped(u, "\n");
        BlanksAreSkipped(u, "");
        assert u + "" == u;
      } else {
        SkipKeepsTheRest(u, "\n");
        TrimmedNewline(SkipSpace(u));
      }
    }
  }

  lemma TrimmedNewline(s: string)
    requires |s| > 0
    ensures ParseTrimmed(s + "\n") == ParseTrimmed(s)
  {
    assert (s + "\n")[..|s|] == s;
  }

  /** A piece that starts with a character that is kept is trimmed at its end only. */
  lemma TrimmedIsAStart(t: string)
    requires |t| > 0 && !IsSpace(t[0]) && t[0] != '\\'
    ensures var s := Trimmed(Unescape(t, false)); s <= Unescape(t, false) && (|s| > 0 ==> s[0] == t[0])
  {
    var u := Unescape(t, false);
    assert u[0] == t[0];
    var c := Uncomment(u, Unquoted(true));
    assert |c| > 0 ==> c[0] == u[0];
  }

  /** What the start of such a line says of the name is no longer than what follows the quote. */
  lemma StartValueFits(name: Str, w: string, r: string)
    requires PlainName(name) && r <= name.text + "=\"" + w
    requires Names(CONF_FILE, Str(r), name)
    ensures |ParseLine(Str(r)).value.text| <= |w|
  {
    StartIsTrimmed(name, w, r);
    UnescapeShortens(w, false);
    TrimmedValueFits(name.text, Unescape(w, false), Trimmed(Unescape(r, false)));
  }

  lemma TrimmedValueFits(n: string, kept: string, s: string)
    requires '=' !in n && |n| < NAME_SIZE && s <= n + "=\"" + kept
    requires ParseTrimmed(s).Setting? && ParseTrimmed(s).name == Str(n)
    ensures |ParseTrimmed(s).value.text| <= |kept|
  {
    var t := DropLastQuote(StripEnd(s));
    assert t <= s;
    ValueFits(n, kept, t);
  }

  lemma StartIsTrimmed(name: Str, w: string, r: string)
    requires PlainName(name) && r <= name.text + "=\"" + w
    ensures Trimmed(Unescape(r, false)) <= name.text + "=\"" + Unescape(w, false)
  {
    UnescapeOfStart(r, name.text + "=\"" + w);
    UnescapeHead(name, w);
    if |r| > 0 {
      assert r[0] == name.text[0] && name.text[0] in name.text;
      TrimmedIsAStart(r);
    }
  }

  /** A value that loses something if the closing quote is missing. */
  predicate Frays(val: Str) {
    var v := val.text;
    |v| > 0 && (IsSpace(v[|v| - 1]) || IsQuote(v[|v| - 1]))
  }

  predicate Clear(val: Str) {
    '\\' !in val.text && Uncut(val)
  }

  lemma UnclosedIsLost(name: Str, val: Str)
    requires PlainName(name) && (!Clear(val) || Frays(val))
    ensures ParseLine(Str(name.text + "=\"" + val.text)) != Setting(name, val)
  {
    if '\\' in val.text {
      UnclosedBackslash(name, val);
    } else {
      var kept := Uncomment(val.text, Quoted('"'));
      UnclosedParsed(name, val, kept);
      if kept == val.text {
        FrayedIsShorter(name, val);
      } else {
        ShorterThan(name, val, name.text + "=\"" + kept, kept);
      }
    }
  }

  lemma UnclosedParsed(name: Str, val: Str, kept: string)
    requires PlainName(name) && '\\' !in val.text && kept == Uncomment(val.text, Quoted('"'))
    ensures ParseLine(Str(name.text + "=\"" + val.text))
      == ParseSetting(DropLastQuote(StripEnd(name.text + "=\"" + kept)))
  {
    var n := name.text;
    UnescapePlain(n + "=\"" + val.text);
    UnclosedUncomment(name, val);
    assert n[0] in n;
    ParsedFrom(Str(n + "=\"" + val.text), n + "=\"" + kept);
  }

  lemma UnclosedBackslash(name: Str, val: Str)
    requires PlainName(name) && '\\' in val.text
    ensures ParseLine(Str(name.text + "=\"" + val.text)) != Setting(name, val)
  {
    var n, v := name.text, val.text;
    var r := n + "=\"" + v;
    NoBackslashes(n + "=\"");
    BackslashesOfBoth(n + "=\"", v);
    var i :| 0 <= i < |v| && v[i] == '\\';
    assert r[|n| + 2 + i] == '\\';
    UnescapeDrops(r, false);
    if ParseLine(Str(r)).Setting? {
      ValueIsASlice(Str(r));
    }
  }

  lemma UnclosedUncomment(name: Str, val: Str)
    requires PlainName(name)
    ensures Uncomment(name.text + "=\"" + val.text, Unquoted(true)) ==
      name.text + "=\"" + Uncomment(val.text, Quoted('"'))
  {
    var n, h := name.text, name.text + "=\"";
    UncommentName(n, true);
    UncommentBoth(n, "=\"", Unquoted(true));
    assert "=\""[1..] == "\"" && "\""[1..] == "";
    assert Uncomment("=\"", Unquoted(false)) == "=\"";
    AfterName(n);
    UncommentBoth(h, val.text, Unquoted(true));
  }

  lemma FrayedIsShorter(name: Str, val: Str)
    requires PlainName(name) && Frays(val)
    ensures ParseSetting(DropLastQuote(StripEnd(name.text + "=\"" + val.text))) != Setting(name, val)
  {
    var n, v := name.text, val.text;
    var r, kept := n + "=\"" + v, v[..|v| - 1];
    var t := DropLastQuote(StripEnd(r));
    assert r[|r| - 1] == v[|v| - 1];
    assert |t| < |r|;
    assert n + "=\"" + kept == r[..|r| - 1];
    if ParseSetting(t).Setting? && ParseSetting(t).name == name {
      ValueFits(n, kept, t);
    }
  }

  lemma UnclosedReads(name: Str, val: Str)
    requires PlainName(name) && Clear(val) && !Frays(val)
    ensures ParseLine(Str(name.text + "=\"" + val.text)) == Setting(name, val)
  {
    UnclosedParsed(name, val, val.text);
    if |val.text| == 0 {
      UnclosedEmpty(name.text, val.text);
    } else {
      UnclosedFull(name.text, val.text);
    }
  }

  lemma UnclosedEmpty(n: string, v: string)
    requires '=' !in n && |n| < NAME_SIZE && |v| == 0
    ensures ParseSetting(DropLastQuote(StripEnd(n + "=\"" + v))) == Setting(Str(n), Str(v))
  {
    var r := n + "=\"" + v;
    assert r[..|r| - 1] == n + "=";
    NameAndSign(n);
  }

  lemma UnclosedFull(n: string, v: string)
    requires '=' !in n && |n| < NAME_SIZE && |v| > 0 && !IsSpace(v[|v| - 1]) && !IsQuote(v[|v| - 1])
    ensures ParseSetting(DropLastQuote(StripEnd(n + "=\"" + v))) == Setting(Str(n), Str(v))
  {
    var r := n + "=\"" + v;
    assert r[|r| - 1] == v[|v| - 1];
    ParseQuoted(n, v);
  }

  lemma NameAndSign(n: string)
    requires '=' !in n && |n| < NAME_SIZE
    ensures ParseSetting(n + "=") == Setting(Str(n), Str(""))
  {
    FindFirst(n, "=", '=');
    assert (n + "=")[..|n|] == n && (n + "=")[|n| + 1..] == "";
  }

  lemma SignReads(name: Str)
    requires PlainName(name)
    ensures ParseLine(Str(name.text + "=")) == Setting(name, Str(""))
  {
    var n := name.text;
    var r := n + "=";
    assert n[0] in n && '\\' !in r;
    UnescapePlain(r);
    UncommentName(n, true);
    UncommentBoth(n, "=", Unquoted(true));
    assert "="[1..] == "";
    assert Uncomment("=", Unquoted(false)) == "=";
    ParsedFrom(Str(r), r);
    assert StripEnd(r) == r && DropLastQuote(r) == r;
    NameAndSign(n);
  }

  /** The first k characters of a stored line suffice: all but the newline; or all but the closing
      quote too, where the value does not fray; or, for the empty value, all but both quotes. */
  predicate Reaches(name: Str, val: Str, k: int) {
    var n := |Render(name, val).text|;
    Clear(val) && (k >= n - 1 || (k == n - 2 && !Frays(val)) || (k == n - 3 && |val.text| == 0))
  }

  /** The first k characters of a stored line read back as its pair. */
  predicate StartReads(name: Str, val: Str, k: nat)
    requires k <= |Render(name, val).text|
  {
    ParseLine(Str(Render(name, val).text[..k])) == Setting(name, val)
  }

  lemma RenderedLength(name: Str, val: Str)
    ensures |Render(name, val).text| == |name.text| + |val.text| + 4
  {
  }

  /** They do exactly when they suffice. */
  lemma StartReadsExactly(name: Str, val: Str, k: nat)
    requires PlainName(name) && k <= |Render(name, val).text|
    ensures StartReads(name, val, k) <==> Reaches(name, val, k)
  {
    RenderedLength(name, val);
    if k >= |Render(name, val).text| - 1 {
      ClosedStartReadsExactly(name, val, k);
    } else if k == |Render(name, val).text| - 2 {
      UnclosedStartReadsExactly(name, val);
    } else if |val.text| > 0 {
      ShortStartIsLost(name, val, k);
    } else {
      EmptyStartReadsExactly(name, val, k);
    }
  }

  lemma ClosedStartReadsExactly(name: Str, val: Str, k: nat)
    requires PlainName(name) && |Render(name, val).text| - 1 <= k <= |Render(name, val).text|
    ensures StartReads(name, val, k) <==> Clear(val)
  {
    var s, a := Render(name, val).text, name.text + "=\"" + val.text + "\"";
    LineReadsBackExactly(name, val);
    assert s == a + "\n";
    if k == |s| {
      assert s[..k] == s;
    } else {
      assert s[..k] == a;
      NewlineSaysNothing(a);
    }
  }

  lemma UnclosedStartReadsExactly(name: Str, val: Str)
    requires PlainName(name)
    ensures StartReads(name, val, |Render(name, val).text| - 2) <==> Clear(val) && !Frays(val)
  {
    var s, a := Render(name, val).text, name.text + "=\"" + val.text;
    assert s[..|s| - 2] == a;
    if Clear(val) && !Frays(val) {
      UnclosedReads(name, val);
    } else {
      UnclosedIsLost(name, val);
    }
  }

  lemma EmptyStartReadsExactly(name: Str, val: Str, k: nat)
    requires PlainName(name) && |val.text| == 0 && k <= |name.text| + 1
    ensures Clear(val) && (StartReads(name, val, k) <==> k == |name.text| + 1)
  {
    var s, n := Render(name, val).text, name.text;
    if k == |n| + 1 {
      assert s[..k] == n + "=";
      assert val == Str("");
      SignReads(name);
    } else {
      assert s[..k] == n[..k];
      assert forall c <- n[..k] :: c in n;
      NoSignSaysNothing(n[..k]);
    }
  }

  lemma ShortStartIsLost(name: Str, val: Str, k: nat)
    requires PlainName(name) && |val.text| > 0 && k <= |Render(name, val).text| - 3
    ensures !StartReads(name, val, k)
  {
    var s, n, v := Render(name, val).text, name.text, val.text;
    var w := v[..|v| - 1];
    assert s[..|s| - 3] == n + "=\"" + w;
    assert s[..k] == s[..|s| - 3][..k];
    if Names(CONF_FILE, Str(s[..k]), name) {
      StartValueFits(name, w, s[..k]);
    }
  }

  // ---------------------------------------------------------------------
  // The rest of a stored line.
  // ---------------------------------------------------------------------

  /** No piece from behind the start of a stored line gives its setting. */
  lemma TailNeverReads(name: Str, val: Str, i: nat, j: nat)
    requires PlainName(name) && 1 <= i <= j <= |Render(name, val).text|
    ensures ParseLine(Str(Render(name, val).text[i..j])) != Setting(name, val)
  {
    var t := Render(name, val).text[i..j];
    if |t| == 0 {
      NoSignSaysNothing(t);
    } else if i <= |name.text| + 1 {
      TailOfName(name, val, i, j);
    } else if j == |Render(name, val).text| {
      var a := t[..|t| - 1];
      assert t == a + "\n";
      NewlineSaysNothing(a);
      ShortTail(name, val, a);
    } else {
      ShortTail(name, val, t);
    }
  }

  lemma ShortTail(name: Str, val: Str, t: string)
    requires PlainName(name) && |t| <= |val.text| + 1
    ensures ParseLine(Str(t)) != Setting(name, val)
  {
    if ParseLine(Str(t)) == Setting(name, val) {
      SettingFits(t);
    }
  }

  lemma TailStarts(name: Str, val: Str, i: nat)
    requires PlainName(name) && 1 <= i <= |name.text| + 1
    ensures var c := Render(name, val).text[i]; !IsSpace(c) && c != '\\' && (i == |name.text| + 1 ==> c == '"')
  {
    var s, n := Render(name, val).text, name.text;
    assert i < |n| ==> s[i] == n[i] && n[i] in n;
  }

  lemma TailOfName(name: Str, val: Str, i: nat, j: nat)
    requires PlainName(name) && 1 <= i <= |name.text| + 1 && i < j <= |Render(name, val).text|
    ensures !Names(CONF_FILE, Str(Render(name, val).text[i..j]), name)
  {
    var s, n := Render(name, val).text, name.text;
    var t := s[i..j];
    TailStarts(name, val, i);
    assert t[0] == s[i];
    TrimmedIsAStart(t);
    if Names(CONF_FILE, Str(t), name) {
      NameStands(Trimmed(Unescape(t, false)), n);
      if i == |n| + 1 {
        QuoteIsNoName(Trimmed(Unescape(t, false)), name);
      } else {
        SignInTail(name, val, i, s[i..], t);
        EarlySign(Trimmed(Unescape(t, false)), Unescape(t, false), n, i);
      }
    }
  }

  lemma QuoteIsNoName(c: string, name: Str)
    requires PlainName(name) && |c| > |name.text|
    ensures !(c[0] == '"' && c[..|name.text|] == name.text)
  {
    assert name.text[0] in name.text;
    assert c[..|name.text|][0] == c[0];
  }

  lemma EarlySign(c: string, u: string, n: string, i: nat)
    requires c <= u && 1 <= i <= |n| < |c| && u[|n| - i] == '=' && '=' !in n
    ensures c[..|n|] != n
  {
  }

  /** The equal sign of the line comes too early for the name. */
  lemma SignInTail(name: Str, val: Str, i: nat, s: string, t: string)
    requires PlainName(name) && 1 <= i <= |name.text| && s == Render(name, val).text[i..] && t <= s
    requires |Unescape(t, false)| > |name.text| - i
    ensures Unescape(t, false)[|name.text| - i] == '='
  {
    var n := name.text;
    var h, x := n[i..] + "=", "\"" + val.text + "\"\n";
    assert s == h + x;
    assert forall c <- n[i..] :: c in n;
    PlainHead(h, x);
    UnescapeOfStart(t, s);
    assert (h + Unescape(x, false))[|n| - i] == '=';
  }

  lemma PlainHead(h: string, x: string)
    requires '\\' !in h
    ensures Unescape(h + x, false) == h + Unescape(x, false)
  {
    UnescapePlain(h);
    PlainProtectsNothing(h);
    UnescapeBoth(h, x, false);
  }

}
