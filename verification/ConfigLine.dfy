/** The line format of configuration files: parse_line of lib/util.c and the lines
    vzctl2_conf_save writes. Strings hold no NUL character. */
module ConfigLine {
  import opened ConfigStore
  import opened CText
  import opened Common

  /** The size of the buffer a name is copied to. */
  const NAME_SIZE: nat := 4096

  predicate IsSpace(c: char) {
    c == ' ' || c == '\t' || c == '\n' || c == '\U{0B}' || c == '\U{0C}' || c == '\r'
  }

  predicate IsQuote(c: char) {
    c == '"' || c == '\''
  }

  /** unescapestr: a backslash is dropped and protects the next character from being one. */
  function Unescape(s: string, protected: bool): string {
    if |s| == 0 then ""
    else if s[0] == '\\' && !protected then Unescape(s[1..], true)
    else [s[0]] + Unescape(s[1..], false)
  }

  datatype Quoting = Unquoted(wordStarts: bool) | Quoted(mark: char)

  /** How uncommentstr sees what follows c. */
  function After(c: char, q: Quoting): Quoting {
    if q.Quoted? && c != q.mark then q
    else if q.Quoted? then Unquoted(false)
    else if IsQuote(c) then Quoted(c)
    else if c == '#' then q
    else Unquoted(IsSpace(c))
  }

  /** uncommentstr: the string ends where a word starts with # outside quotes. */
  function Uncomment(s: string, q: Quoting): (r: string)
    ensures r <= s
  {
    if |s| == 0 || (s[0] == '#' && q == Unquoted(true)) then ""
    else [s[0]] + Uncomment(s[1..], After(s[0], q))
  }

  function SkipSpace(s: string): (r: string)
    ensures |r| <= |s| && r == s[|s| - |r|..]
  {
    if |s| > 0 && IsSpace(s[0]) then SkipSpace(s[1..]) else s
  }

  function StripEnd(s: string): (r: string)
    ensures r <= s
  {
    if |s| > 0 && IsSpace(s[|s| - 1]) then StripEnd(s[..|s| - 1]) else s
  }

  function DropLastQuote(s: string): string {
    if |s| > 0 && IsQuote(s[|s| - 1]) then s[..|s| - 1] else s
  }

  function DropFirstQuote(s: string): string {
    if |s| > 0 && IsQuote(s[0]) then s[1..] else s
  }

  function ParseSetting(s: string): Parsed {
    var p := Find(s, '=');
    if p == |s| || p >= NAME_SIZE then Nothing
    else Setting(Str(s[..p]), Str(DropFirstQuote(s[p + 1..])))
  }

  /** What is left of an unescaped line before it is taken apart. */
  function Trimmed(u: string): string {
    SkipSpace(Uncomment(u, Unquoted(true)))
  }

  function ParseTrimmed(s: string): Parsed {
    if |s| == 0 || s[0] == '#' then Nothing else ParseSetting(DropLastQuote(StripEnd(s)))
  }

  function ParseLine(line: Str): Parsed {
    ParseTrimmed(Trimmed(Unescape(line.text, false)))
  }

  function Render(name: Str, val: Str): Str {
    Str(name.text + "=\"" + val.text + "\"\n")
  }

  const CONF_FILE: Syntax := Syntax(ParseLine, Render)

  predicate PlainName(name: Str) {
    && 0 < |name.text| < NAME_SIZE
    && name.text[0] != '#'
    && forall c <- name.text :: !IsSpace(c) && !IsQuote(c) && c != '\\' && c != '='
  }

  /** No word of the value starts with # outside quotes, once a double quote is open. */
  predicate Uncut(val: Str) {
    Uncomment(val.text, Quoted('"')) == val.text
  }

  lemma {:induction false} UnescapePlain(s: string)
    requires '\\' !in s
    ensures Unescape(s, false) == s
  {
    if |s| > 0 {
      assert forall c <- s[1..] :: c in s;
      UnescapePlain(s[1..]);
    }
  }

  function AfterAll(s: string, q: Quoting): Quoting {
    if |s| == 0 then q else AfterAll(s[1..], After(s[0], q))
  }

  lemma {:induction false} UncommentBoth(a: string, b: string, q: Quoting)
    ensures Uncomment(a + b, q) ==
      if Uncomment(a, q) == a then a + Uncomment(b, AfterAll(a, q)) else Uncomment(a, q)
  {
    if |a| == 0 {
      assert a + b == b;
    } else if a[0] != '#' || q != Unquoted(true) {
      UncommentBoth(a[1..], b, After(a[0], q));
      UncommentStep(a, q);
      UncommentStep(a + b, q);
      assert (a + b)[1..] == a[1..] + b;
      Prepend(a[0], a[1..], Uncomment(a[1..], After(a[0], q)), Uncomment(b, AfterAll(a, q)));
      assert a == [a[0]] + a[1..];
    }
  }

  lemma UncommentStep(s: string, q: Quoting)
    requires |s| > 0 && (s[0] != '#' || q != Unquoted(true))
    ensures Uncomment(s, q) == [s[0]] + Uncomment(s[1..], After(s[0], q))
  {
  }

  lemma Prepend(c: char, s: string, r: string, more: string)
    ensures [c] + s == [c] + r <==> s == r
    ensures [c] + (s + more) == ([c] + s) + more
  {
    assert ([c] + s)[1..] == s && ([c] + r)[1..] == r;
  }

  lemma {:induction false} UncommentName(name: string, wordStarts: bool)
    requires forall c <- name :: !IsSpace(c) && !IsQuote(c)
    requires |name| > 0 && wordStarts ==> name[0] != '#'
    ensures Uncomment(name, Unquoted(wordStarts)) == name
    ensures AfterAll(name, Unquoted(wordStarts)) == Unquoted(wordStarts && |name| == 0)
  {
    if |name| > 0 {
      UncommentName(name[1..], false);
    }
  }

  /** Comments are cut from a stored line exactly as from its value after an open quote. */
  lemma UncommentRendered(name: Str, val: Str)
    requires PlainName(name)
    ensures Uncomment(Render(name, val).text, Unquoted(true)) ==
      if Uncut(val) then Render(name, val).text
      else name.text + "=\"" + Uncomment(val.text, Quoted('"'))
  {
    var n, v := name.text, val.text;
    UncommentName(n, true);
    UncommentBoth(n, "=\"", Unquoted(true));
    assert "=\""[1..] == "\"" && "\""[1..] == "";
    assert Uncomment("=\"", Unquoted(false)) == "=\"";
    AfterName(n);
    UncommentBoth(n + "=\"", v, Unquoted(true));
    UncommentBoth(n + "=\"" + v, "\"\n", Unquoted(true));
    UncommentEnd(AfterAll(n + "=\"" + v, Unquoted(true)));
    if !Uncut(val) {
      assert n + "=\"" + Uncomment(v, Quoted('"')) != n + "=\"" + v by {
        assert (n + "=\"" + Uncomment(v, Quoted('"')))[|n| + 2..] == Uncomment(v, Quoted('"'));
        assert (n + "=\"" + v)[|n| + 2..] == v;
      }
    }
    assert n + "=\"" + v + "\"\n" == Render(name, val).text;
  }

  lemma {:induction false} AfterBoth(a: string, b: string, q: Quoting)
    ensures AfterAll(a + b, q) == AfterAll(b, AfterAll(a, q))
  {
    if |a| == 0 {
      assert a + b == b;
    } else {
      assert (a + b)[1..] == a[1..] + b;
      AfterBoth(a[1..], b, After(a[0], q));
    }
  }

  lemma AfterName(n: string)
    requires |n| > 0 && n[0] != '#' && forall c <- n :: !IsSpace(c) && !IsQuote(c)
    ensures AfterAll(n + "=\"", Unquoted(true)) == Quoted('"')
  {
    UncommentName(n, true);
    AfterBoth(n, "=\"", Unquoted(true));
    assert "=\""[1..] == "\"" && "\""[1..] == "";
    assert AfterAll("\"", Unquoted(false)) == Quoted('"');
  }

  lemma UncommentEnd(q: Quoting)
    ensures Uncomment("\"\n", q) == "\"\n"
  {
    assert "\"\n"[1..] == "\n" && "\n"[1..] == "";
    assert Uncomment("\n", After('"', q)) == "\n";
  }

  lemma ParseQuoted(name: string, val: string)
    requires '=' !in name && |name| < NAME_SIZE
    ensures ParseSetting(name + "=\"" + val) == Setting(Str(name), Str(val))
  {
    var rest := "=\"" + val;
    assert name + "=\"" + val == name + rest;
    FindFirst(name, rest, '=');
    assert (name + rest)[..|name|] == name;
    assert (name + rest)[|name| + 1..] == "\"" + val;
    assert ("\"" + val)[1..] == val;
  }

  lemma StripNewline(s: string)
    requires |s| > 0 && s[|s| - 1] == '"'
    ensures DropLastQuote(StripEnd(s + "\n")) == s[..|s| - 1]
  {
    assert (s + "\n")[..|s|] == s;
  }

  /** A stored line whose value nothing is dropped or cut from reads back as its pair. */
  lemma PlainReadsBack(name: Str, val: Str)
    requires PlainName(name) && '\\' !in val.text && Uncut(val)
    ensures ParseLine(Render(name, val)) == Setting(name, val)
  {
    var n, v, s := name.text, val.text, Render(name, val).text;
    UnescapePlain(s);
    UncommentRendered(name, val);
    assert s[0] == n[0] && n[0] in n;
    assert SkipSpace(s) == s;
    var t := n + "=\"" + v + "\"";
    assert s == t + "\n";
    StripNewline(t);
    assert t[..|t| - 1] == n + "=\"" + v;
    ParseQuoted(n, v);
  }

  /** Found after the name, a value is no longer than what follows the first quote. */
  lemma ValueFits(name: string, kept: string, t: string)
    requires '=' !in name && |name| < NAME_SIZE && t <= name + "=\"" + kept
    requires ParseSetting(t).Setting? && ParseSetting(t).name == Str(name)
    ensures |ParseSetting(t).value.text| <= |kept|
  {
    var p := Find(t, '=');
    assert t[..p] == name;
    assert |t| > p + 1 ==> t[p + 1] == (name + "=\"" + kept)[p + 1] == '"';
  }

  lemma ParsedFrom(line: Str, u: string)
    requires Uncomment(Unescape(line.text, false), Unquoted(true)) == u
    requires |u| > 0 && u[0] != '#' && !IsSpace(u[0])
    ensures ParseLine(line) == ParseSetting(DropLastQuote(StripEnd(u)))
  {
  }

  /** A value that loses its end to a comment comes back shorter. */
  lemma CutComesBackShorter(name: Str, val: Str)
    requires PlainName(name) && '\\' !in val.text && !Uncut(val)
    ensures ParseLine(Render(name, val)) != Setting(name, val)
  {
    var n, kept := name.text, Uncomment(val.text, Quoted('"'));
    UnescapePlain(Render(name, val).text);
    UncommentRendered(name, val);
    assert n[0] in n;
    ParsedFrom(Render(name, val), n + "=\"" + kept);
    ShorterThan(name, val, n + "=\"" + kept, kept);
  }

  lemma ShorterThan(name: Str, val: Str, u: string, kept: string)
    requires PlainName(name) && |kept| < |val.text| && u == name.text + "=\"" + kept
    ensures ParseSetting(DropLastQuote(StripEnd(u))) != Setting(name, val)
  {
    var t := DropLastQuote(StripEnd(u));
    if ParseSetting(t).Setting? && ParseSetting(t).name == name {
      ValueFits(name.text, kept, t);
    }
  }

  function Backslashes(s: string): nat {
    if |s| == 0 then 0 else (if s[0] == '\\' then 1 else 0) + Backslashes(s[1..])
  }

  lemma {:induction false} BackslashesOfBoth(a: string, b: string)
    ensures Backslashes(a + b) == Backslashes(a) + Backslashes(b)
  {
    if |a| == 0 {
      assert a + b == b;
    } else {
      assert (a + b)[1..] == a[1..] + b;
      BackslashesOfBoth(a[1..], b);
    }
  }

  lemma BackslashesOfSlice(s: string, i: nat, j: nat)
    requires i <= j <= |s|
    ensures Backslashes(s[i..j]) <= Backslashes(s)
  {
    BackslashesOfBoth(s[..i], s[i..]);
    BackslashesOfBoth(s[i..j], s[j..]);
    assert s[..i] + s[i..] == s && s[i..j] + s[j..] == s[i..];
  }

  lemma {:induction false} UnescapeDrops(s: string, protected: bool)
    ensures Backslashes(Unescape(s, protected)) <= Backslashes(s)
    ensures '\\' in s && !protected ==> Backslashes(Unescape(s, protected)) < Backslashes(s)
  {
    if |s| > 0 {
      var p := s[0] == '\\' && !protected;
      UnescapeDrops(s[1..], p);
      if !p {
        BackslashesOfBoth([s[0]], Unescape(s[1..], false));
        assert [s[0]][1..] == "";
      }
    }
  }

  lemma BackslashesOfStart(r: string, s: string)
    requires r <= s
    ensures Backslashes(r) <= Backslashes(s)
  {
    BackslashesOfSlice(s, 0, |r|);
  }

  lemma BackslashesOfEnd(r: string, s: string)
    requires |r| <= |s| && r == s[|s| - |r|..]
    ensures Backslashes(r) <= Backslashes(s)
  {
    BackslashesOfSlice(s, |s| - |r|, |s|);
    assert s[|s| - |r|..|s|] == r;
  }

  lemma SettingIsASlice(t: string)
    requires ParseSetting(t).Setting?
    ensures Backslashes(ParseSetting(t).value.text) <= Backslashes(t)
  {
    BackslashesOfEnd(t[Find(t, '=') + 1..], t);
    BackslashesOfEnd(ParseSetting(t).value.text, t[Find(t, '=') + 1..]);
  }

  /** The parsed value is a piece of the unescaped line. */
  lemma ValueIsASlice(line: Str)
    requires ParseLine(line).Setting?
    ensures Backslashes(ParseLine(line).value.text) <= Backslashes(Unescape(line.text, false))
  {
    var u := Unescape(line.text, false);
    var c := Uncomment(u, Unquoted(true));
    var s := SkipSpace(c);
    var e := StripEnd(s);
    BackslashesOfStart(c, u);
    BackslashesOfEnd(s, c);
    BackslashesOfStart(e, s);
    BackslashesOfStart(DropLastQuote(e), e);
    SettingIsASlice(DropLastQuote(e));
  }

  lemma {:induction false} NoBackslashes(s: string)
    requires '\\' !in s
    ensures Backslashes(s) == 0
  {
    if |s| > 0 {
      NoBackslashes(s[1..]);
    }
  }

  /** A value with a backslash comes back with fewer. */
  lemma BackslashIsLost(name: Str, val: Str)
    requires PlainName(name) && '\\' in val.text
    ensures ParseLine(Render(name, val)) != Setting(name, val)
  {
    var n, v, s := name.text, val.text, Render(name, val).text;
    assert s == n + ("=\"" + (v + "\"\n"));
    BackslashesOfBoth(n, "=\"" + (v + "\"\n"));
    BackslashesOfBoth("=\"", v + "\"\n");
    BackslashesOfBoth(v, "\"\n");
    NoBackslashes(n);
    NoBackslashes("=\"");
    NoBackslashes("\"\n");
    assert '\\' in s by {
      var i :| 0 <= i < |v| && v[i] == '\\';
      assert s[|n| + 2 + i] == '\\';
    }
    UnescapeDrops(s, false);
    if ParseLine(Render(name, val)).Setting? {
      ValueIsASlice(Render(name, val));
    }
  }

  /** A buffer with a stored line reads back as the pair it was written for exactly when the value
      has no backslash and no comment. */
  lemma LineReadsBackExactly(name: Str, val: Str)
    requires PlainName(name)
    ensures ParseLine(Render(name, val)) == Setting(name, val) <==> '\\' !in val.text && Uncut(val)
  {
    if '\\' in val.text {
      BackslashIsLost(name, val);
    } else if Uncut(val) {
      PlainReadsBack(name, val);
    } else {
      CutComesBackShorter(name, val);
    }
  }

  // ---------------------------------------------------------------------
  // No value read from a file holds a newline.
  // ---------------------------------------------------------------------

  /** A newline stands at the end, if anywhere. */
  predicate NewlineLast(s: string) {
    forall i :: 0 <= i < |s| - 1 ==> s[i] != '\n'
  }

  lemma {:induction false} UnescapeKeepsNewlineLast(s: string, protected: bool)
    requires NewlineLast(s)
    ensures NewlineLast(Unescape(s, protected))
  {
    if |s| > 0 {
      UnescapeKeepsNewlineLast(s[1..], s[0] == '\\' && !protected);
      if |s| == 1 {
        assert s[1..] == "";
      }
    }
  }

  lemma {:induction false} StrippedEnd(s: string)
    ensures |StripEnd(s)| > 0 ==> !IsSpace(StripEnd(s)[|StripEnd(s)| - 1])
  {
    if |s| > 0 && IsSpace(s[|s| - 1]) {
      StrippedEnd(s[..|s| - 1]);
    }
  }

  lemma SettingIsFrom(t: string)
    requires ParseSetting(t).Setting? && '\n' !in t
    ensures '\n' !in ParseSetting(t).value.text
  {
    var v := ParseSetting(t).value.text;
    assert v == t[|t| - |v|..];
    assert forall c <- v :: c in t;
  }

  lemma StripHasNoNewline(s: string)
    requires NewlineLast(s)
    ensures '\n' !in StripEnd(s)
  {
    StrippedEnd(s);
    var e := StripEnd(s);
    assert forall i :: 0 <= i < |e| - 1 ==> e[i] == s[i];
  }

  lemma CutKeepsNewlineLast(u: string)
    requires NewlineLast(u)
    ensures NewlineLast(Trimmed(u))
  {
    var c, s := Uncomment(u, Unquoted(true)), Trimmed(u);
    assert NewlineLast(c) by {
      assert forall i :: 0 <= i < |c| ==> c[i] == u[i];
    }
    assert forall i :: 0 <= i < |s| ==> s[i] == c[|c| - |s| + i];
  }

  /** A line with nothing behind its newline gives a value without one. */
  lemma LineHasNoNewline(line: Str)
    requires NewlineLast(line.text) && ParseLine(line).Setting?
    ensures '\n' !in ParseLine(line).value.text
  {
    var u := Unescape(line.text, false);
    UnescapeKeepsNewlineLast(line.text, false);
    CutKeepsNewlineLast(u);
    var e := StripEnd(Trimmed(u));
    StripHasNoNewline(Trimmed(u));
    assert forall x <- DropLastQuote(e) :: x in e;
    SettingIsFrom(DropLastQuote(e));
  }
}
